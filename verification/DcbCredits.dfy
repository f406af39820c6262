/**
 Data Center Bridging: the rules a bandwidth configuration must meet, the credits each
 traffic class gets from it, and the registers the credits are packed into.
 */
module DcbCredits {
  import opened Bits

  type U8 = x: nat | x < 256

  const CLASSES: nat := 8
  const GROUPS: nat := 8
  const BW_PERCENT: nat := 100
  const MINIMUM_CREDIT_REFILL: nat := 5
  const MINIMUM_CREDIT_FOR_JUMBO: nat := 145
  const MINIMUM_CREDIT_FOR_TSO: nat := 513
  const MAX_CREDIT: nat := 4095
  const ERR_CONFIG: int := -1
  const ERR_BW_GROUP: int := -3
  const ERR_TC_BW: int := -4
  const ERR_LS_BW_NONZERO: int := -6
  const ERR_LS_BWG_NONZERO: int := -7
  const ERR_TC_BW_ZERO: int := -8

  datatype Prio = PrioNone | PrioGroup | PrioLink
  datatype Direction = Tx | Rx

  /** A traffic class in one direction: its group, its share of the group, its priority. */
  datatype TcAlloc = TcAlloc(bwgId: U8, bwgPercent: U8, prio: Prio)

  // ----- the rules -----

  /** Percentages of the classes in front of `n` that belong to group `j`. */
  function GroupSum(tcs: seq<TcAlloc>, j: nat, n: nat): nat
    requires n <= |tcs|
  {
    if n == 0 then 0
    else GroupSum(tcs, j, n - 1) + (if tcs[n - 1].bwgId == j then tcs[n - 1].bwgPercent else 0)
  }

  function PercentSum(pct: seq<U8>, n: nat): nat
    requires n <= |pct|
  {
    if n == 0 then 0 else PercentSum(pct, n - 1) + pct[n - 1]
  }

  predicate ClassOk(tc: TcAlloc) {
    tc.bwgId < GROUPS && (tc.prio.PrioLink? <==> tc.bwgPercent == 0)
  }

  predicate LinkStrict(tcs: seq<TcAlloc>, j: nat, n: nat)
    requires n <= |tcs|
  {
    n > 0 && (LinkStrict(tcs, j, n - 1) || (tcs[n - 1].prio.PrioLink? && tcs[n - 1].bwgId == j))
  }

  /** The sums are kept in 8 bits. */
  predicate GroupOk(tcs: seq<TcAlloc>, j: nat)
    requires |tcs| == CLASSES
  {
    var s := GroupSum(tcs, j, CLASSES) % 256;
    if LinkStrict(tcs, j, CLASSES) then s == 0 else s == 0 || s == BW_PERCENT
  }

  ghost predicate DirectionOk(tcs: seq<TcAlloc>, pct: seq<U8>) {
    && |tcs| == CLASSES && |pct| == GROUPS
    && (forall i | 0 <= i < CLASSES :: ClassOk(tcs[i]))
    && (forall j | 0 <= j < GROUPS :: GroupOk(tcs, j))
    && PercentSum(pct, GROUPS) % 256 == BW_PERCENT
  }

  /** The error reported for a class, zero for none. */
  function ClassError(tc: TcAlloc): (e: int)
    ensures e == 0 <==> ClassOk(tc)
  {
    if tc.bwgId >= GROUPS then ERR_CONFIG
    else if tc.prio.PrioLink? then (if tc.bwgPercent != 0 then ERR_LS_BW_NONZERO else 0)
    else if tc.bwgPercent == 0 then ERR_TC_BW_ZERO
    else 0
  }

  function GroupError(tcs: seq<TcAlloc>, j: nat): (e: int)
    requires |tcs| == CLASSES
    ensures e == 0 <==> GroupOk(tcs, j)
  {
    if GroupOk(tcs, j) then 0 else if LinkStrict(tcs, j, CLASSES) then ERR_LS_BWG_NONZERO else ERR_TC_BW
  }

  /** `e` is what the first class that breaks a rule is reported as. */
  ghost predicate FirstClassError(tcs: seq<TcAlloc>, e: int) {
    exists i | 0 <= i < |tcs| :: e == ClassError(tcs[i]) != 0 && forall k | 0 <= k < i :: ClassOk(tcs[k])
  }

  ghost predicate FirstGroupError(tcs: seq<TcAlloc>, e: int)
    requires |tcs| == CLASSES
  {
    exists j | 0 <= j < GROUPS :: e == GroupError(tcs, j) != 0 && forall k | 0 <= k < j :: GroupOk(tcs, k)
  }

  ghost predicate Summed(tcs: seq<TcAlloc>, sums: seq<U8>, strict: seq<bool>, n: nat)
    requires n <= |tcs|
  {
    && |sums| == |strict| == GROUPS
    && forall g | 0 <= g < GROUPS :: sums[g] == GroupSum(tcs, g, n) % 256 && strict[g] == LinkStrict(tcs, g, n)
  }

  lemma SumStep(tcs: seq<TcAlloc>, sums: seq<U8>, strict: seq<bool>, n: nat)
    requires n < |tcs| && tcs[n].bwgId < GROUPS && Summed(tcs, sums, strict, n)
    ensures
      var id := tcs[n].bwgId;
      var sum: nat := sums[id] + tcs[n].bwgPercent;
      Summed(tcs, sums[id := sum % 256], if tcs[n].prio.PrioLink? then strict[id := true] else strict, n + 1)
  {
    hide LinkStrict, GroupSum;
    Mod256(GroupSum(tcs, tcs[n].bwgId, n), tcs[n].bwgPercent);
    forall g | 0 <= g < GROUPS
      ensures GroupSum(tcs, g, n + 1) == GroupSum(tcs, g, n) + (if tcs[n].bwgId == g then tcs[n].bwgPercent else 0)
      ensures LinkStrict(tcs, g, n + 1) == (LinkStrict(tcs, g, n) || (tcs[n].prio.PrioLink? && tcs[n].bwgId == g))
    {
      NextClass(tcs, g, n);
    }
  }

  lemma NextClass(tcs: seq<TcAlloc>, g: nat, n: nat)
    requires n < |tcs|
    ensures GroupSum(tcs, g, n + 1) == GroupSum(tcs, g, n) + (if tcs[n].bwgId == g then tcs[n].bwgPercent else 0)
    ensures LinkStrict(tcs, g, n + 1) == (LinkStrict(tcs, g, n) || (tcs[n].prio.PrioLink? && tcs[n].bwgId == g))
  {
  }

  lemma Mod256(a: nat, b: nat)
    ensures (a % 256 + b) % 256 == (a + b) % 256
  {
  }

  /** Each traffic class in turn: the first half of one round of ixgbe_dcb_check_config. */
  method CheckClasses(tcs: seq<TcAlloc>) returns (status: int, bwSum: seq<U8>, linkStrict: seq<bool>)
    requires |tcs| == CLASSES
    ensures status == 0 <==> forall i | 0 <= i < CLASSES :: ClassOk(tcs[i])
    ensures status != 0 ==> FirstClassError(tcs, status)
    ensures status == 0 ==> Summed(tcs, bwSum, linkStrict, CLASSES)
  {
    hide Summed;
    bwSum, linkStrict := seq(GROUPS, _ => 0), seq(GROUPS, _ => false);
    NothingSummed(tcs, bwSum, linkStrict);
    for j := 0 to CLASSES
      invariant |bwSum| == |linkStrict| == GROUPS
      invariant forall i | 0 <= i < j :: ClassOk(tcs[i])
      invariant Summed(tcs, bwSum, linkStrict, j)
    {
      var p := tcs[j];
      var bw: nat, id := p.bwgPercent, p.bwgId;
      if id >= GROUPS {
        assert ERR_CONFIG == ClassError(tcs[j]);
        return ERR_CONFIG, bwSum, linkStrict;
      }
      SumStep(tcs, bwSum, linkStrict, j);
      if p.prio.PrioLink? {
        linkStrict := linkStrict[id := true];
        if bw != 0 {
          assert ERR_LS_BW_NONZERO == ClassError(tcs[j]);
          return ERR_LS_BW_NONZERO, bwSum, linkStrict;
        }
      } else if bw == 0 {
        assert ERR_TC_BW_ZERO == ClassError(tcs[j]);
        return ERR_TC_BW_ZERO, bwSum, linkStrict;
      }
      var sum: nat := bwSum[id] + bw;
      bwSum := bwSum[id := sum % 256];
    }
    return 0, bwSum, linkStrict;
  }

  lemma NothingSummed(tcs: seq<TcAlloc>, sums: seq<U8>, strict: seq<bool>)
    requires |sums| == |strict| == GROUPS
    requires forall g | 0 <= g < GROUPS :: sums[g] == 0 && !strict[g]
    ensures Summed(tcs, sums, strict, 0)
  {
  }

  /** Each bandwidth group in turn: the second half of one round. */
  method CheckGroups(tcs: seq<TcAlloc>, pct: seq<U8>, bwSum: seq<U8>, linkStrict: seq<bool>) returns (status: int)
    requires |tcs| == CLASSES && |pct| == GROUPS && Summed(tcs, bwSum, linkStrict, CLASSES)
    ensures status == 0 <==>
      (forall j | 0 <= j < GROUPS :: GroupOk(tcs, j)) && PercentSum(pct, GROUPS) % 256 == BW_PERCENT
    ensures status != 0 ==>
      if forall j | 0 <= j < GROUPS :: GroupOk(tcs, j) then status == ERR_BW_GROUP else FirstGroupError(tcs, status)
  {
    var bw: U8 := 0;
    for j := 0 to GROUPS
      invariant forall g | 0 <= g < j :: GroupOk(tcs, g)
      invariant bw == PercentSum(pct, j) % 256
    {
      var sum: nat := bw + pct[j];
      bw := sum % 256;
      if linkStrict[j] {
        if bwSum[j] != 0 {
          assert ERR_LS_BWG_NONZERO == GroupError(tcs, j);
          return ERR_LS_BWG_NONZERO;
        }
      } else if bwSum[j] != BW_PERCENT && bwSum[j] != 0 {
        assert ERR_TC_BW == GroupError(tcs, j);
        return ERR_TC_BW;
      }
    }
    if bw != BW_PERCENT {
      return ERR_BW_GROUP;
    }
    return 0;
  }

  /** What a rejected direction is reported as. */
  ghost predicate Reported(tcs: seq<TcAlloc>, e: int)
    requires |tcs| == CLASSES
  {
    if !forall i | 0 <= i < CLASSES :: ClassOk(tcs[i]) then FirstClassError(tcs, e)
    else if !forall j | 0 <= j < GROUPS :: GroupOk(tcs, j) then FirstGroupError(tcs, e)
    else e == ERR_BW_GROUP
  }

  /** One round of ixgbe_dcb_check_config. */
  method CheckDirection(tcs: seq<TcAlloc>, pct: seq<U8>) returns (status: int)
    requires |tcs| == CLASSES && |pct| == GROUPS
    ensures status == 0 <==> DirectionOk(tcs, pct)
    ensures status != 0 ==> Reported(tcs, status)
  {
    hide Summed, ClassOk, GroupOk, PercentSum, FirstClassError, FirstGroupError;
    var bwSum, linkStrict;
    status, bwSum, linkStrict := CheckClasses(tcs);
    if status == 0 {
      status := CheckGroups(tcs, pct, bwSum, linkStrict);
    }
  }

  /** ixgbe_dcb_check_config: first Tx, then Rx. */
  method CheckConfig(txTcs: seq<TcAlloc>, txPct: seq<U8>, rxTcs: seq<TcAlloc>, rxPct: seq<U8>) returns (status: int)
    requires |txTcs| == |rxTcs| == CLASSES && |txPct| == |rxPct| == GROUPS
    ensures status == 0 <==> DirectionOk(txTcs, txPct) && DirectionOk(rxTcs, rxPct)
    ensures status != 0 ==> Reported(if DirectionOk(txTcs, txPct) then rxTcs else txTcs, status)
  {
    status := CheckDirection(txTcs, txPct);
    if status != 0 {
      return;
    }
    status := CheckDirection(rxTcs, rxPct);
  }

  // ----- credits -----

  datatype Credits = Credits(linkPercent: nat, refill: nat, max: nat)

  function LinkPercent(tc: TcAlloc, bwPercent: U8): nat {
    var link := tc.bwgPercent * bwPercent / 100;
    if tc.bwgPercent > 0 && link == 0 then 1 else link
  }

  function CreditMax(link: nat, dir: Direction): nat {
    var max := link * MAX_CREDIT / 100;
    var max := if max != 0 && max < MINIMUM_CREDIT_FOR_JUMBO then MINIMUM_CREDIT_FOR_JUMBO else max;
    if dir.Tx? && max != 0 && max < MINIMUM_CREDIT_FOR_TSO then MINIMUM_CREDIT_FOR_TSO else max
  }

  /** The credits of a class, truncated to the fields of the configuration. */
  ghost predicate CreditsOf(c: Credits, tc: TcAlloc, pct: seq<U8>, dir: Direction) {
    && tc.bwgId < GROUPS == |pct|
    && var link := LinkPercent(tc, pct[tc.bwgId]);
    c == Credits(link % 256, link * MINIMUM_CREDIT_REFILL % 65536, CreditMax(link, dir) % 65536)
  }

  /** ixgbe_dcb_calculate_tc_credits */
  method CalculateCredits(tcs: seq<TcAlloc>, pct: seq<U8>, dir: Direction) returns (credits: seq<Credits>)
    requires |tcs| == CLASSES && |pct| == GROUPS && forall i | 0 <= i < CLASSES :: tcs[i].bwgId < GROUPS
    ensures |credits| == CLASSES && forall i | 0 <= i < CLASSES :: CreditsOf(credits[i], tcs[i], pct, dir)
  {
    credits := [];
    for i := 0 to CLASSES
      invariant |credits| == i && forall k | 0 <= k < i :: CreditsOf(credits[k], tcs[k], pct, dir)
    {
      var p := tcs[i];
      var bwPercent := pct[p.bwgId];
      var link: nat := p.bwgPercent;
      link := link * bwPercent / 100;
      if p.bwgPercent > 0 && link == 0 {
        link := 1;
      }
      var creditRefill := link * MINIMUM_CREDIT_REFILL;
      var creditMax := link * MAX_CREDIT / 100;
      if creditMax != 0 && creditMax < MINIMUM_CREDIT_FOR_JUMBO {
        creditMax := MINIMUM_CREDIT_FOR_JUMBO;
      }
      if dir.Tx? {
        if creditMax != 0 && creditMax < MINIMUM_CREDIT_FOR_TSO {
          creditMax := MINIMUM_CREDIT_FOR_TSO;
        }
      }
      credits := credits + [Credits(link % 256, creditRefill % 65536, creditMax % 65536)];
    }
  }

  // ----- what the rules are for -----

  /** The four documented rules, with sums that do not wrap. */
  ghost predicate Rules(tcs: seq<TcAlloc>, pct: seq<U8>) {
    && |tcs| == CLASSES && |pct| == GROUPS
    && (forall i | 0 <= i < CLASSES :: ClassOk(tcs[i]))
    && (forall j | 0 <= j < GROUPS :: GroupSum(tcs, j, CLASSES) == 0
                                      || (GroupSum(tcs, j, CLASSES) == BW_PERCENT && !LinkStrict(tcs, j, CLASSES)))
    && PercentSum(pct, GROUPS) == BW_PERCENT
  }

  /** No sum of the check leaves its 8 bits. */
  ghost predicate NoWrap(tcs: seq<TcAlloc>, pct: seq<U8>) {
    && |tcs| == CLASSES && |pct| == GROUPS && PercentSum(pct, GROUPS) < 256
    && forall j | 0 <= j < GROUPS :: GroupSum(tcs, j, CLASSES) < 256
  }

  /** The check enforces its documented rules exactly on the configurations whose sums do not wrap. */
  lemma AcceptedIsRules(tcs: seq<TcAlloc>, pct: seq<U8>)
    ensures DirectionOk(tcs, pct) && NoWrap(tcs, pct) <==> Rules(tcs, pct)
  {
    hide ClassOk, LinkStrict, GroupSum, PercentSum;
    if DirectionOk(tcs, pct) && NoWrap(tcs, pct) {
      forall j | 0 <= j < GROUPS
        ensures GroupSum(tcs, j, CLASSES) == 0
             || (GroupSum(tcs, j, CLASSES) == BW_PERCENT && !LinkStrict(tcs, j, CLASSES))
      {
        assert GroupOk(tcs, j);
      }
    }
  }

  lemma {:induction false} ShareAtMostSum(tcs: seq<TcAlloc>, i: nat, n: nat)
    requires i < n <= |tcs|
    ensures tcs[i].bwgPercent <= GroupSum(tcs, tcs[i].bwgId, n)
  {
    if i < n - 1 {
      ShareAtMostSum(tcs, i, n - 1);
    }
  }

  lemma {:induction false} PercentAtMostSum(pct: seq<U8>, j: nat, n: nat)
    requires j < n <= |pct|
    ensures pct[j] <= PercentSum(pct, n)
  {
    if j < n - 1 {
      PercentAtMostSum(pct, j, n - 1);
    }
  }

  lemma LinkPercentRange(tc: TcAlloc, bwPercent: U8)
    requires tc.bwgPercent <= 100 && bwPercent <= 100
    ensures LinkPercent(tc, bwPercent) <= 100 && (LinkPercent(tc, bwPercent) == 0 <==> tc.bwgPercent == 0)
  {
    Product(tc.bwgPercent, bwPercent);
  }

  lemma Product(a: nat, b: nat)
    requires a <= 100 && b <= 100
    ensures a * b <= 10000 && (a == 0 ==> a * b == 0)
  {
  }

  /** No share is more than the whole. */
  ghost predicate Percentages(tcs: seq<TcAlloc>, pct: seq<U8>) {
    (forall i | 0 <= i < |tcs| :: tcs[i].bwgPercent <= 100) && forall j | 0 <= j < |pct| :: pct[j] <= 100
  }

  /** The rules leave no share above the whole. */
  lemma RulesBoundShares(tcs: seq<TcAlloc>, pct: seq<U8>)
    requires Rules(tcs, pct)
    ensures DirectionOk(tcs, pct) && Percentages(tcs, pct)
  {
    hide GroupSum, PercentSum, LinkStrict;
    AcceptedIsRules(tcs, pct);
    forall i | 0 <= i < CLASSES ensures tcs[i].bwgPercent <= 100 {
      assert ClassOk(tcs[i]);
      ShareAtMostSum(tcs, i, CLASSES);
    }
    forall j | 0 <= j < GROUPS ensures pct[j] <= 100 {
      PercentAtMostSum(pct, j, GROUPS);
    }
  }

  /** In an accepted configuration of percentages every class that is not link strict can send,
      and no credit leaves its hardware range, whether or not a sum has wrapped. */
  lemma CreditsInRange(tcs: seq<TcAlloc>, pct: seq<U8>, dir: Direction, i: nat)
    requires DirectionOk(tcs, pct) && Percentages(tcs, pct) && i < CLASSES
    ensures tcs[i].bwgId < GROUPS
    ensures
      var link := LinkPercent(tcs[i], pct[tcs[i].bwgId]);
      var max := CreditMax(link, dir);
      if tcs[i].prio.PrioLink? then link == 0 && max == 0
      else && 1 <= link <= 100
           && (if dir.Tx? then MINIMUM_CREDIT_FOR_TSO else MINIMUM_CREDIT_FOR_JUMBO) <= max <= MAX_CREDIT
  {
    hide LinkPercent, GroupOk, PercentSum;
    assert ClassOk(tcs[i]);
    LinkPercentRange(tcs[i], pct[tcs[i].bwgId]);
  }

  // ----- conservation of bandwidth -----

  function LinkSum(tcs: seq<TcAlloc>, pct: seq<U8>, n: nat): nat
    requires n <= |tcs| && |pct| == GROUPS && forall i | 0 <= i < |tcs| :: tcs[i].bwgId < GROUPS
  {
    if n == 0 then 0 else LinkSum(tcs, pct, n - 1) + LinkPercent(tcs[n - 1], pct[tcs[n - 1].bwgId])
  }

  /** How many classes had a share below one percent rounded up to one. */
  function RoundedUp(tcs: seq<TcAlloc>, pct: seq<U8>, n: nat): nat
    requires n <= |tcs| && |pct| == GROUPS && forall i | 0 <= i < |tcs| :: tcs[i].bwgId < GROUPS
  {
    if n == 0 then 0
    else
      RoundedUp(tcs, pct, n - 1)
      + (if tcs[n - 1].bwgPercent > 0 && tcs[n - 1].bwgPercent * pct[tcs[n - 1].bwgId] < 100 then 1 else 0)
  }

  /** Hundredths of a percent: the exact shares of the first `n` classes. */
  ghost function Exact(tcs: seq<TcAlloc>, pct: seq<U8>, n: nat): nat
    requires n <= |tcs| && |pct| == GROUPS && forall i | 0 <= i < |tcs| :: tcs[i].bwgId < GROUPS
  {
    if n == 0 then 0 else Exact(tcs, pct, n - 1) + tcs[n - 1].bwgPercent * pct[tcs[n - 1].bwgId]
  }

  /** The same shares counted group by group, for the groups below `m`. */
  ghost function ByGroup(tcs: seq<TcAlloc>, pct: seq<U8>, n: nat, m: nat): nat
    requires n <= |tcs| && m <= |pct|
  {
    if m == 0 then 0 else ByGroup(tcs, pct, n, m - 1) + GroupSum(tcs, m - 1, n) * pct[m - 1]
  }

  lemma {:induction false} ByGroupStep(tcs: seq<TcAlloc>, pct: seq<U8>, n: nat, m: nat)
    requires n < |tcs| && m <= |pct|
    ensures ByGroup(tcs, pct, n + 1, m) == ByGroup(tcs, pct, n, m)
      + (if tcs[n].bwgId < m then tcs[n].bwgPercent * pct[tcs[n].bwgId] else 0)
  {
    if m > 0 {
      ByGroupStep(tcs, pct, n, m - 1);
      Distribute(GroupSum(tcs, m - 1, n), tcs[n].bwgPercent, pct[m - 1]);
    }
  }

  lemma Distribute(a: nat, b: nat, c: nat)
    ensures (a + b) * c == a * c + b * c
  {
  }

  lemma {:induction false} NoneByGroup(tcs: seq<TcAlloc>, pct: seq<U8>, m: nat)
    requires m <= |pct|
    ensures ByGroup(tcs, pct, 0, m) == 0
  {
    if m > 0 {
      NoneByGroup(tcs, pct, m - 1);
    }
  }

  lemma {:induction false} ExactIsByGroup(tcs: seq<TcAlloc>, pct: seq<U8>, n: nat)
    requires n <= |tcs| && |pct| == GROUPS && forall i | 0 <= i < |tcs| :: tcs[i].bwgId < GROUPS
    ensures Exact(tcs, pct, n) == ByGroup(tcs, pct, n, GROUPS)
  {
    hide ByGroup;
    if n == 0 {
      NoneByGroup(tcs, pct, GROUPS);
    } else {
      ExactIsByGroup(tcs, pct, n - 1);
      ByGroupStep(tcs, pct, n - 1, GROUPS);
    }
  }

  lemma {:induction false} ByGroupBound(tcs: seq<TcAlloc>, pct: seq<U8>, m: nat)
    requires |tcs| == CLASSES && m <= |pct| == GROUPS
    requires forall j | 0 <= j < GROUPS :: GroupSum(tcs, j, CLASSES) <= 100
    ensures ByGroup(tcs, pct, CLASSES, m) <= 100 * PercentSum(pct, m)
  {
    hide GroupSum;
    if m > 0 {
      ByGroupBound(tcs, pct, m - 1);
      Weighted(GroupSum(tcs, m - 1, CLASSES), pct[m - 1]);
    }
  }

  lemma Weighted(s: nat, g: nat)
    requires s <= 100
    ensures s * g <= 100 * g
  {
  }

  lemma {:induction false} LinkSumBound(tcs: seq<TcAlloc>, pct: seq<U8>, n: nat)
    requires n <= |tcs| && |pct| == GROUPS && forall i | 0 <= i < |tcs| :: tcs[i].bwgId < GROUPS
    ensures 100 * LinkSum(tcs, pct, n) <= Exact(tcs, pct, n) + 100 * RoundedUp(tcs, pct, n)
  {
    if n > 0 {
      LinkSumBound(tcs, pct, n - 1);
      LinkShare(tcs[n - 1], pct[tcs[n - 1].bwgId]);
    }
  }

  lemma LinkShare(tc: TcAlloc, g: U8)
    ensures
      var exact := tc.bwgPercent * g;
      100 * LinkPercent(tc, g) <= exact + (if tc.bwgPercent > 0 && exact < 100 then 100 else 0)
  {
  }

  /** The share of a class is its part of its group's part, rounded down, but never down to nothing. */
  lemma LinkPercentExact(tc: TcAlloc, g: U8)
    ensures var exact, link := tc.bwgPercent * g, LinkPercent(tc, g);
      if tc.bwgPercent > 0 && exact < 100 then link == 1 else 100 * link <= exact < 100 * (link + 1)
  {
  }

  /** The maximum is its part of all credits, rounded down, where that is not below the least that
      a packet needs. */
  lemma CreditMaxExact(link: nat, dir: Direction)
    ensures var exact, max, least := link * MAX_CREDIT, CreditMax(link, dir), if dir.Tx? then 513 else 145;
      if exact < 100 then max == 0
      else if exact < 100 * least then max == least
      else 100 * max <= exact < 100 * (max + 1)
  {
  }

  /** Under the rules the link is never given away more than once, but for the shares rounded up. */
  lemma BandwidthIsConserved(tcs: seq<TcAlloc>, pct: seq<U8>)
    requires Rules(tcs, pct)
    ensures forall i | 0 <= i < CLASSES :: tcs[i].bwgId < GROUPS
    ensures LinkSum(tcs, pct, CLASSES) <= 100 + RoundedUp(tcs, pct, CLASSES)
  {
    hide LinkSum, Exact, ByGroup, RoundedUp, GroupSum, PercentSum, LinkStrict;
    forall i | 0 <= i < CLASSES ensures tcs[i].bwgId < GROUPS {
      assert ClassOk(tcs[i]);
    }
    LinkSumBound(tcs, pct, CLASSES);
    ExactIsByGroup(tcs, pct, CLASSES);
    ByGroupBound(tcs, pct, GROUPS);
  }

  // ----- the wrapped sums -----

  /** Three classes that claim 356 percent of their only group. */
  const WRAPPED: seq<TcAlloc> :=
    [TcAlloc(0, 100, PrioNone), TcAlloc(0, 128, PrioNone), TcAlloc(0, 128, PrioNone),
     TcAlloc(1, 0, PrioLink), TcAlloc(1, 0, PrioLink), TcAlloc(1, 0, PrioLink),
     TcAlloc(1, 0, PrioLink), TcAlloc(1, 0, PrioLink)]

  const ONE_GROUP: seq<U8> := [100, 0, 0, 0, 0, 0, 0, 0]

  lemma WrappedSums(j: nat)
    ensures GroupSum(WRAPPED, j, CLASSES) == if j == 0 then 356 else 0
    ensures LinkStrict(WRAPPED, j, CLASSES) <==> j == 1
  {
    var k := 0;
    while k < CLASSES
      invariant k <= CLASSES
      invariant GroupSum(WRAPPED, j, k) ==
        if j != 0 || k == 0 then 0 else if k == 1 then 100 else if k == 2 then 228 else 356
      invariant LinkStrict(WRAPPED, j, k) <==> j == 1 && k > 3
    {
      k := k + 1;
    }
  }

  lemma OneGroupSum(k: nat)
    requires k <= GROUPS
    ensures PercentSum(ONE_GROUP, k) == if k == 0 then 0 else 100
  {
    if k > 0 {
      OneGroupSum(k - 1);
    }
  }

  /** The check accepts a configuration that gives the link away three and a half times. */
  lemma WrappedIsAccepted()
    ensures DirectionOk(WRAPPED, ONE_GROUP) && !Rules(WRAPPED, ONE_GROUP)
    ensures LinkSum(WRAPPED, ONE_GROUP, CLASSES) == 356 && RoundedUp(WRAPPED, ONE_GROUP, CLASSES) == 0
  {
    hide GroupSum, PercentSum, LinkStrict;
    OneGroupSum(GROUPS);
    WrappedSums(0);
    forall j | 0 <= j < GROUPS ensures GroupOk(WRAPPED, j) {
      WrappedSums(j);
    }
    WrappedLink(CLASSES);
  }

  lemma WrappedLink(k: nat)
    requires k <= CLASSES
    ensures LinkSum(WRAPPED, ONE_GROUP, k) == if k == 0 then 0 else if k == 1 then 100 else if k == 2 then 228 else 356
    ensures RoundedUp(WRAPPED, ONE_GROUP, k) == 0
  {
    if k > 0 {
      WrappedLink(k - 1);
    }
  }

  // ----- registers -----

  const MCL_SHIFT: nat := 12
  const BWG_SHIFT: nat := 9
  const GSP: Word := {30}
  const LSP: Word := {31}

  /** The credit register of a class, as the three arbiters of the 82599 compose it. */
  function Register(refill: Word, max: Word, bwgId: Word, prio: Prio, dir: Direction): (reg: Word) {
    refill + Shl(max, MCL_SHIFT, 32) + Shl(bwgId, BWG_SHIFT, 32)
    + (if prio.PrioGroup? && dir.Tx? then GSP else {})
    + (if prio.PrioLink? then LSP else {})
  }

  /** Bits `lo .. lo + width` of a register, as a number. */
  function Field(reg: Word, lo: nat, width: nat): nat {
    Num(Shr(reg, lo), width)
  }

  lemma {:induction false} NumSame(x: Word, y: Word, width: nat)
    requires forall i: nat | i < width :: i in x <==> i in y
    ensures Num(x, width) == Num(y, width)
  {
    if width > 0 {
      NumSame(x, y, width - 1);
    }
  }

  lemma Powers()
    ensures Pow2(3) == 8 && Pow2(9) == 512 && Pow2(12) == 4096 && Pow2(16) == 65536
  {
    assert Pow2(6) == 64;
  }

  /** Field contents that fit do not touch each other. */
  lemma FieldsApart(refill: Word, max: Word, bwgId: Word, prio: Prio, dir: Direction)
    requires Fits(refill, 9) && Fits(max, 12) && Fits(bwgId, 3)
    ensures
      var reg := Register(refill, max, bwgId, prio, dir);
      && (forall i: nat | i < 9 :: i in Shr(reg, 0) <==> i in refill)
      && (forall i: nat | i < 3 :: i in Shr(reg, 9) <==> i in bwgId)
      && (forall i: nat | i < 12 :: i in Shr(reg, 12) <==> i in max)
  {
  }

  /** What the card reads from the register of a class is what was computed for it, if and only if that is in range. */
  lemma RegisterDecodes(refill: nat, max: nat, bwgId: nat, prio: Prio, dir: Direction)
    requires refill < Pow2(16) && max < Pow2(16) && bwgId < Pow2(16)
    ensures
      var reg := Register(Digits(refill, 16), Digits(max, 16), Digits(bwgId, 16), prio, dir);
      refill < 512 && max < 4096 && bwgId < 8 <==>
      Field(reg, 0, 9) == refill && Field(reg, 9, 3) == bwgId && Field(reg, 12, 12) == max
  {
    hide Num, Digits, Pow2, Register, Shr, Fits;
    Powers();
    if refill < 512 && max < 4096 && bwgId < 8 {
      DigitsNarrow(refill, 9, 16);
      DigitsNarrow(max, 12, 16);
      DigitsNarrow(bwgId, 3, 16);
      var r, m, b := Digits(refill, 9), Digits(max, 12), Digits(bwgId, 3);
      var reg := Register(r, m, b, prio, dir);
      FieldsApart(r, m, b, prio, dir);
      NumSame(Shr(reg, 0), r, 9);
      NumSame(Shr(reg, 12), m, 12);
      NumSame(Shr(reg, 9), b, 3);
      NumOfDigits(refill, 9);
      NumOfDigits(max, 12);
      NumOfDigits(bwgId, 3);
    }
  }

  lemma PriorityBits(refill: nat, max: nat, bwgId: nat, prio: Prio, dir: Direction)
    requires refill < Pow2(16) && max < Pow2(16) && bwgId < Pow2(16)
    ensures
      var reg := Register(Digits(refill, 16), Digits(max, 16), Digits(bwgId, 16), prio, dir);
      && (30 in reg <==> prio.PrioGroup? && dir.Tx?)
      && (31 in reg <==> prio.PrioLink?)
  {
    hide Digits, Pow2;
    assert Fits(Digits(refill, 16), 16) && Fits(Digits(max, 16), 16) && Fits(Digits(bwgId, 16), 16);
  }

  /** In an accepted configuration of percentages every credit register reads back what was computed for its class. */
  lemma ProgrammedCredits(tcs: seq<TcAlloc>, pct: seq<U8>, dir: Direction, i: nat)
    requires DirectionOk(tcs, pct) && Percentages(tcs, pct) && i < CLASSES
    ensures tcs[i].bwgId < GROUPS
    ensures
      var link := LinkPercent(tcs[i], pct[tcs[i].bwgId]);
      var max := CreditMax(link, dir);
      && link * MINIMUM_CREDIT_REFILL < Pow2(16) && max < Pow2(16) && tcs[i].bwgId < Pow2(16)
      && var reg := Register(Digits(link * MINIMUM_CREDIT_REFILL, 16), Digits(max, 16), Digits(tcs[i].bwgId, 16),
                             tcs[i].prio, dir);
      && Field(reg, 0, 9) == link * MINIMUM_CREDIT_REFILL
      && Field(reg, 9, 3) == tcs[i].bwgId
      && Field(reg, 12, 12) == max
  {
    hide ClassOk, GroupOk, PercentSum, LinkPercent, CreditMax, Register, Field, Digits, Pow2;
    Powers();
    CreditsInRange(tcs, pct, dir, i);
    var link := LinkPercent(tcs[i], pct[tcs[i].bwgId]);
    RegisterDecodes(link * MINIMUM_CREDIT_REFILL, CreditMax(link, dir), tcs[i].bwgId, tcs[i].prio, dir);
  }

  ghost predicate ProgrammedFor(reg: Word, tc: TcAlloc, c: Credits, dir: Direction) {
    && c.refill < Pow2(16) && c.max < Pow2(16) && tc.bwgId < Pow2(16)
    && reg == Register(Digits(c.refill, 16), Digits(c.max, 16), Digits(tc.bwgId, 16), tc.prio, dir)
  }

  /** The loop of an arbiter over the traffic classes: one register for each. */
  method ConfigArbiter(tcs: seq<TcAlloc>, credits: seq<Credits>, dir: Direction) returns (regs: seq<Word>)
    requires |tcs| == |credits| == CLASSES && forall i | 0 <= i < CLASSES :: credits[i].refill < 65536 && credits[i].max < 65536
    ensures |regs| == CLASSES && forall i | 0 <= i < CLASSES :: ProgrammedFor(regs[i], tcs[i], credits[i], dir)
  {
    hide Digits, Pow2, Shl;
    Powers();
    regs := [];
    for i := 0 to CLASSES
      invariant |regs| == i && forall k | 0 <= k < i :: ProgrammedFor(regs[k], tcs[k], credits[k], dir)
    {
      var p := tcs[i];
      var reg := Digits(credits[i].refill, 16);
      reg := reg + Shl(Digits(credits[i].max, 16), MCL_SHIFT, 32);
      reg := reg + Shl(Digits(p.bwgId, 16), BWG_SHIFT, 32);
      if dir.Tx? && p.prio.PrioGroup? {
        reg := reg + GSP;
      }
      if p.prio.PrioLink? {
        reg := reg + LSP;
      }
      regs := regs + [reg];
    }
  }

  /** What the card reads from the register of a class is what its share comes to. */
  ghost predicate RegisterHolds(reg: Word, tc: TcAlloc, pct: seq<U8>, dir: Direction) {
    && tc.bwgId < GROUPS == |pct|
    && var link := LinkPercent(tc, pct[tc.bwgId]);
    && Field(reg, 0, 9) == link * MINIMUM_CREDIT_REFILL
    && Field(reg, 9, 3) == tc.bwgId
    && Field(reg, 12, 12) == CreditMax(link, dir)
  }

  lemma RegistersHold(tcs: seq<TcAlloc>, pct: seq<U8>, dir: Direction, credits: seq<Credits>, regs: seq<Word>)
    requires DirectionOk(tcs, pct) && Percentages(tcs, pct) && |tcs| == |regs| == |credits| == CLASSES
    requires forall i | 0 <= i < CLASSES :: CreditsOf(credits[i], tcs[i], pct, dir)
    requires forall i | 0 <= i < CLASSES :: ProgrammedFor(regs[i], tcs[i], credits[i], dir)
    ensures forall i | 0 <= i < CLASSES :: RegisterHolds(regs[i], tcs[i], pct, dir)
  {
    hide DirectionOk, Percentages, CreditsOf, ProgrammedFor, RegisterHolds;
    forall i | 0 <= i < CLASSES ensures RegisterHolds(regs[i], tcs[i], pct, dir) {
      OneRegisterHolds(tcs, pct, dir, i, credits[i], regs[i]);
    }
  }

  lemma OneRegisterHolds(tcs: seq<TcAlloc>, pct: seq<U8>, dir: Direction, i: nat, c: Credits, reg: Word)
    requires DirectionOk(tcs, pct) && Percentages(tcs, pct) && i < CLASSES && |tcs| == CLASSES
    ensures CreditsOf(c, tcs[i], pct, dir) && ProgrammedFor(reg, tcs[i], c, dir) ==> RegisterHolds(reg, tcs[i], pct, dir)
  {
    hide DirectionOk, Percentages, LinkPercent, CreditMax, Register, Field, Digits, Pow2;
    CreditsInRange(tcs, pct, dir, i);
    ProgrammedCredits(tcs, pct, dir, i);
  }

  /** Check, credits and registers of one direction together: what an accepted configuration of
      percentages leaves in the card is its own credits, class by class. */
  method Configure(tcs: seq<TcAlloc>, pct: seq<U8>, dir: Direction) returns (status: int, regs: seq<Word>)
    requires |tcs| == CLASSES && |pct| == GROUPS
    ensures status == 0 <==> DirectionOk(tcs, pct)
    ensures status == 0 ==> |regs| == CLASSES
    ensures status == 0 && Percentages(tcs, pct) ==> forall i | 0 <= i < CLASSES ::
      RegisterHolds(regs[i], tcs[i], pct, dir)
  {
    hide GroupOk, PercentSum, LinkPercent, CreditMax, ProgrammedFor, RegisterHolds, Reported, Percentages;
    regs := [];
    status := CheckDirection(tcs, pct);
    if status != 0 {
      return;
    }
    forall i | 0 <= i < CLASSES ensures tcs[i].bwgId < GROUPS {
      assert ClassOk(tcs[i]);
    }
    var credits := CalculateCredits(tcs, pct, dir);
    regs := ConfigArbiter(tcs, credits, dir);
    if Percentages(tcs, pct) {
      RegistersHold(tcs, pct, dir, credits, regs);
    }
  }
}
