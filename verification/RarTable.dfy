/**
 The receive address registers (RAL, RAH) and the pool selection registers (MPSAR): an
 exact-match table from Ethernet addresses to sets of pools.
 */
module RarTable {
  import opened Bits
  import opened Common

  const AV: nat := 31
  const CLEAR_VMDQ_ALL: nat := 0xFFFF_FFFF

  /** The registers with one index. */
  datatype Slot = Slot(ral: Word, rah: Word, lo: Word, hi: Word)

  /** An address as the registers hold it: four bytes in RAL and two in RAH. */
  datatype Addr = Addr(low: Word, high: Word)

  ghost predicate IsMac(bytes: seq<Word>) {
    |bytes| == 6 && forall i | 0 <= i < 6 :: Fits(bytes[i], 8)
  }

  function AddrOf(bytes: seq<Word>): Addr
    requires IsMac(bytes)
  {
    Addr(bytes[0] + Shl(bytes[1], 8, 32) + Shl(bytes[2], 16, 32) + Shl(bytes[3], 24, 32),
         bytes[4] + Shl(bytes[5], 8, 32))
  }

  /** Bit `b` of byte `i` of the address, read back from the registers. */
  lemma AddrBit(bytes: seq<Word>, i: nat, b: nat)
    requires IsMac(bytes) && i < 6 && b < 8
    ensures b in bytes[i] <==> if i < 4 then 8 * i + b in AddrOf(bytes).low else 8 * (i - 4) + b in AddrOf(bytes).high
  {
  }

  /** Different addresses have different register contents. */
  lemma AddrInjective(x: seq<Word>, y: seq<Word>)
    requires IsMac(x) && IsMac(y) && AddrOf(x) == AddrOf(y)
    ensures x == y
  {
    hide AddrOf;
    forall i: nat | i < 6 ensures x[i] == y[i] {
      forall b: nat | b < 8 ensures b in x[i] <==> b in y[i] {
        AddrBit(x, i, b);
        AddrBit(y, i, b);
      }
    }
  }

  predicate InUse(s: Slot) {
    AV in s.rah
  }

  function SlotAddr(s: Slot): Addr {
    Addr(s.ral, s.rah * LOW_16)
  }

  function Pools(s: Slot): Word {
    s.lo + Shl(s.hi, 32, 64)
  }

  /** No address, not valid, no pools; the other bits of RAH are kept. */
  function Cleared(s: Slot): Slot {
    Slot({}, s.rah - (LOW_16 + {AV}), {}, {})
  }

  ghost predicate SlotFits(s: Slot) {
    Fits(s.ral, 32) && Fits(s.rah, 32) && Fits(s.lo, 32) && Fits(s.hi, 32)
  }

  lemma PoolsEmpty(s: Slot)
    requires SlotFits(s)
    ensures Pools(s) == {} <==> s.lo == {} && s.hi == {}
  {
    forall p | p in s.hi ensures p + 32 in Pools(s) {
    }
  }

  function WithPool(s: Slot, vmdq: nat): (r: Slot)
    requires vmdq < 64 && SlotFits(s)
    ensures SlotFits(r)
    ensures Pools(r) == Pools(s) + {vmdq} && r.ral == s.ral && r.rah == s.rah
  {
    if vmdq < 32 then s.(lo := s.lo + {vmdq}) else s.(hi := s.hi + {vmdq - 32})
  }

  function WithoutPool(s: Slot, vmdq: nat): (r: Slot)
    requires vmdq < 64 && SlotFits(s)
    ensures SlotFits(r)
    ensures Pools(r) == Pools(s) - {vmdq} && r.ral == s.ral && r.rah == s.rah
  {
    if vmdq < 32 then s.(lo := s.lo - {vmdq}) else s.(hi := s.hi - {vmdq - 32})
  }

  /** What every slot other than 0 keeps: in use with pools, or completely empty. Slot 0
      keeps its address when its last pool goes. */
  ghost predicate SlotOk(i: nat, s: Slot) {
    && SlotFits(s)
    && (InUse(s) && i != 0 ==> Pools(s) != {})
    && (!InUse(s) ==> SlotAddr(s) == Addr({}, {}) && Pools(s) == {})
  }

  /** The slot after a pool, or all pools, were taken away. */
  function Reduced(i: nat, s: Slot, vmdq: nat): Slot
    requires SlotFits(s) && (vmdq < 64 || vmdq == CLEAR_VMDQ_ALL)
  {
    if Pools(s) == {} then s
    else
      var r := if vmdq == CLEAR_VMDQ_ALL then s.(lo := {}, hi := {}) else WithoutPool(s, vmdq);
      if Pools(r) == {} && i != 0 then Cleared(r) else r
  }

  lemma ReducedOfCleared(i: nat, s: Slot)
    requires SlotFits(s)
    ensures Reduced(i, s.(ral := {}, rah := s.rah - (LOW_16 + {AV})), CLEAR_VMDQ_ALL) == Cleared(s)
  {
    PoolsEmpty(s);
    var x := LOW_16 + {AV};
    assert s.rah - x - x == s.rah - x;
  }

  ghost predicate TableOk(slots: seq<Slot>, highwater: nat) {
    && (forall i | 0 <= i < |slots| :: SlotOk(i, slots[i]))
    && (forall i | highwater <= i < |slots| :: !InUse(slots[i]))
    && (forall i, j | 0 <= i < j < |slots| && InUse(slots[i]) && InUse(slots[j]) ::
          SlotAddr(slots[i]) != SlotAddr(slots[j]))
  }

  predicate Holds(s: Slot, a: Addr) {
    InUse(s) && SlotAddr(s) == a
  }

  /** The hardware table and the driver's highwater mark; `view` is the map it stands for. */
  class Table {
    var slots: seq<Slot>
    var highwater: nat
    ghost var view: map<Addr, Word>

    ghost predicate Valid()
      reads this
    {
      |slots| < NO_EMPTY_RAR_FOUND && TableOk(slots, highwater) && Agrees(slots, view)
    }

    constructor (n: nat)
      requires n < NO_EMPTY_RAR_FOUND
      ensures Valid() && |slots| == n && highwater == 0 && view == map[]
    {
      slots := seq(n, _ => Slot({}, {}, {}, {}));
      highwater, view := 0, map[];
    }

    /** ixgbe_set_vmdq_82599 */
    method SetVmdq(rar: nat, vmdq: nat)
      requires vmdq < 64 && (rar < |slots| ==> SlotFits(slots[rar]))
      modifies this`slots
      ensures slots == if rar < |old(slots)| then old(slots)[rar := WithPool(old(slots)[rar], vmdq)] else old(slots)
    {
      if rar < |slots| {
        if vmdq < 32 {
          slots := slots[rar := slots[rar].(lo := slots[rar].lo + {vmdq})];
        } else {
          slots := slots[rar := slots[rar].(hi := slots[rar].hi + {vmdq - 32})];
        }
      }
    }

    static function HasPools(slots: seq<Slot>, rar: nat): bool {
      rar < |slots| && Pools(slots[rar]) != {}
    }

    /** ixgbe_clear_vmdq_82599, which calls ixgbe_clear_rar_generic for the last pool ... */
    method ClearVmdq(rar: nat, vmdq: nat)
      requires vmdq < 64 || vmdq == CLEAR_VMDQ_ALL
      requires rar < |slots| ==> SlotFits(slots[rar])
      modifies this`slots
      ensures slots == if rar < |old(slots)| then old(slots)[rar := Reduced(rar, old(slots)[rar], vmdq)] else old(slots)
      decreases HasPools(slots, rar), 0
    {
      if rar < |slots| {
        var s := slots[rar];
        PoolsEmpty(s);
        var lo, hi := s.lo, s.hi;
        if lo == {} && hi == {} {
          return;
        }
        if vmdq == CLEAR_VMDQ_ALL {
          if lo != {} {
            slots := slots[rar := slots[rar].(lo := {})];
            lo := {};
          }
          if hi != {} {
            slots := slots[rar := slots[rar].(hi := {})];
            hi := {};
          }
        } else if vmdq < 32 {
          lo := lo - {vmdq};
          slots := slots[rar := slots[rar].(lo := lo)];
        } else {
          hi := hi - {vmdq - 32};
          slots := slots[rar := slots[rar].(hi := hi)];
        }
        PoolsEmpty(slots[rar]);
        if lo == {} && hi == {} && rar != 0 {
          ClearRar(rar);
        }
      }
    }

    /** ... and is called back by it to clear all pools. */
    method ClearRar(index: nat)
      requires index < |slots| ==> SlotFits(slots[index])
      modifies this`slots
      ensures slots == if index < |old(slots)| then old(slots)[index := Cleared(old(slots)[index])] else old(slots)
      decreases HasPools(slots, index), 1
    {
      if index < |slots| {
        var s := slots[index];
        PoolsEmpty(s);
        slots := slots[index := s.(ral := {}, rah := s.rah - (LOW_16 + {AV}))];
        ReducedOfCleared(index, s);
      }
      ClearVmdq(index, CLEAR_VMDQ_ALL);
    }

    /** ixgbe_set_rar_generic with the address enabled. */
    method SetRar(index: nat, bytes: seq<Word>, vmdq: nat)
      requires IsMac(bytes) && vmdq < 64 && (index < |slots| ==> SlotFits(slots[index]))
      modifies this`slots
      ensures slots == if index < |old(slots)| then old(slots)[index := Filled(old(slots)[index], AddrOf(bytes), vmdq)]
                       else old(slots)
    {
      SetVmdq(index, vmdq);
      if index < |slots| {
        var low := bytes[0] + Shl(bytes[1], 8, 32) + Shl(bytes[2], 16, 32) + Shl(bytes[3], 24, 32);
        var high := slots[index].rah;
        high := high - (LOW_16 + {AV});
        high := high + (bytes[4] + Shl(bytes[5], 8, 32));
        high := high + {AV};
        slots := slots[index := slots[index].(ral := low, rah := high)];
      }
    }

    /** The search of ixgbe_insert_mac_addr_82599: the slot of the address, or the mark and the
        first free slot seen below it. */
    method FindMac(bytes: seq<Word>) returns (rar: nat, firstEmpty: nat)
      requires IsMac(bytes) && AddrOf(bytes) != Addr({}, {})
      requires TableOk(slots, highwater) && highwater <= |slots| < NO_EMPTY_RAR_FOUND
      ensures rar <= highwater && (rar < highwater ==> Holds(slots[rar], AddrOf(bytes)))
      ensures rar == highwater ==> forall i | 0 <= i < highwater :: !Holds(slots[i], AddrOf(bytes))
      ensures firstEmpty == NO_EMPTY_RAR_FOUND || (firstEmpty < highwater && !InUse(slots[firstEmpty]))
      ensures rar == highwater && firstEmpty == NO_EMPTY_RAR_FOUND ==> forall i | 0 <= i < highwater :: InUse(slots[i])
    {
      var addrLow := bytes[0] + Shl(bytes[1], 8, 32) + Shl(bytes[2], 16, 32) + Shl(bytes[3], 24, 32);
      var addrHigh := bytes[4] + Shl(bytes[5], 8, 32);
      ghost var a := AddrOf(bytes);
      hide AddrOf, Shl, Pools;
      AddrParts(bytes);
      firstEmpty := NO_EMPTY_RAR_FOUND;
      rar := 0;
      while rar < highwater
        invariant 0 <= rar <= highwater
        invariant forall i | 0 <= i < rar :: !Holds(slots[i], a)
        invariant firstEmpty != NO_EMPTY_RAR_FOUND ==> firstEmpty < rar && !InUse(slots[firstEmpty])
        invariant firstEmpty == NO_EMPTY_RAR_FOUND ==> forall i | 0 <= i < rar :: InUse(slots[i])
        decreases highwater - rar
      {
        assert SlotOk(rar, slots[rar]);
        if AV !in slots[rar].rah && firstEmpty == NO_EMPTY_RAR_FOUND {
          firstEmpty := rar;
        } else if slots[rar].rah * LOW_16 == addrHigh {
          if slots[rar].ral == addrLow {
            break;
          }
        }
        rar := rar + 1;
      }
    }

    /** The rest of ixgbe_insert_mac_addr_82599, given what the search returned. */
    method PlaceMac(found: nat, firstEmpty: nat, bytes: seq<Word>, vmdq: nat) returns (rar: nat)
      requires IsMac(bytes) && vmdq < 64 && found <= highwater <= |slots| < NO_EMPTY_RAR_FOUND
      requires firstEmpty == NO_EMPTY_RAR_FOUND || firstEmpty < highwater
      requires var i := Target(found, firstEmpty, highwater); i < |slots| ==>
        SlotFits(slots[i]) && SlotFits(Filled(slots[i], AddrOf(bytes), vmdq)) && (Holds(slots[i], AddrOf(bytes)) <==> found < highwater)
      modifies this`slots, this`highwater
      ensures rar == Target(found, firstEmpty, old(highwater))
      ensures highwater == if rar == old(highwater) then rar + 1 else old(highwater)
      ensures slots == if rar < |old(slots)| then old(slots)[rar := Added(rar, old(slots)[rar], AddrOf(bytes), vmdq)] else old(slots)
    {
      hide AddrOf, Shl, Pools, Holds, InUse, Filled, Reduced;
      rar := found;
      if rar < highwater {
        SetVmdq(rar, vmdq);
      } else if firstEmpty != NO_EMPTY_RAR_FOUND {
        rar := firstEmpty;
        SetRar(rar, bytes, vmdq);
      } else if rar == highwater {
        SetRar(rar, bytes, vmdq);
        highwater := highwater + 1;
      }
      if rar == 0 {
        ClearVmdq(rar, 0);
      }
    }

    /** ixgbe_insert_mac_addr_82599. The result is the slot of the address. When the table has
        no room the call does not fail: it returns an index past the end, leaves the
        registers alone and moves the highwater mark past the end. */
    method InsertMac(bytes: seq<Word>, vmdq: nat) returns (r: nat)
      requires Valid() && highwater <= |slots| && IsMac(bytes) && AddrOf(bytes) != Addr({}, {}) && vmdq < 64
      modifies this
      ensures Valid() && |slots| == |old(slots)| && (r < |slots| <==> HasRoom(old(slots), old(highwater), AddrOf(bytes)))
      ensures r < |slots| ==> highwater <= |slots| && Holds(slots[r], AddrOf(bytes)) && slots == old(slots)[r := slots[r]]
      ensures r < |slots| ==> view == MapAdd(old(view), r, AddrOf(bytes), vmdq)
      ensures r >= |slots| ==> r == |slots| && slots == old(slots) && view == old(view) && highwater == |slots| + 1
    {
      hide AddrOf, InUse, Filled, TableOk, Agrees, Added, MapAdd, SlotFits;
      ghost var a := AddrOf(bytes);
      AddrParts(bytes);
      var rar, firstEmpty := FindMac(bytes);
      MarkIsFree(slots, highwater);
      ghost var i := Target(rar, firstEmpty, highwater);
      if i < |slots| {
        AddUpdatesMap(slots, highwater, view, i, a, vmdq);
      }
      HigherMark(slots, highwater, highwater + 1);
      r := PlaceMac(rar, firstEmpty, bytes, vmdq);
      if r < |slots| {
        view := MapAdd(view, r, a, vmdq);
      }
    }

    /** ixgbe_clear_vmdq: the pool leaves the map, and with the last pool the address does, except at
        slot 0. On a free slot, and past the end of the table, nothing changes. */
    method RemovePool(rar: nat, vmdq: nat)
      requires Valid() && (vmdq < 64 || vmdq == CLEAR_VMDQ_ALL)
      modifies this`slots, this`view
      ensures Valid()
      ensures if rar < |old(slots)| && InUse(old(slots)[rar])
              then view == MapRemove(old(view), rar, SlotAddr(old(slots)[rar]), vmdq)
              else slots == old(slots) && view == old(view)
    {
      hide TableOk, Agrees, Reduced, MapRemove, InUse, SlotAddr, SlotFits;
      if rar < |slots| {
        if InUse(slots[rar]) {
          RemoveUpdatesMap(slots, highwater, view, rar, vmdq);
          view := MapRemove(view, rar, SlotAddr(slots[rar]), vmdq);
        } else {
          FreeStaysFree(slots, highwater, rar, vmdq);
        }
      }
      ClearVmdq(rar, vmdq);
    }
  }

  lemma FreeStaysFree(slots: seq<Slot>, highwater: nat, i: nat, vmdq: nat)
    requires TableOk(slots, highwater) && i < |slots| && !InUse(slots[i]) && (vmdq < 64 || vmdq == CLEAR_VMDQ_ALL)
    ensures SlotFits(slots[i]) && slots[i := Reduced(i, slots[i], vmdq)] == slots
  {
    assert SlotOk(i, slots[i]);
  }

  const MAC_A: seq<Word> := [{1}, {}, {}, {}, {}, {0}]
  const MAC_B: seq<Word> := [{1}, {}, {}, {}, {}, {1}]

  /** A table with one slot, and a second address: the call reports slot 1, which does not exist, and
      the mark is now past the table. */
  method FullTableInsert() returns (table: Table, r: nat)
    ensures |table.slots| == 1 && r == 1 && table.highwater == 2 && AddrOf(MAC_B) !in table.view
  {
    hide TableOk, Agrees, AddrOf, IsMac, Holds, MapAdd;
    TwoMacs();
    table := new Table(1);
    assert HasRoom(table.slots, table.highwater, AddrOf(MAC_A));
    var first := table.InsertMac(MAC_A, 1);
    OneSlotFull(table.slots, table.highwater, AddrOf(MAC_A), AddrOf(MAC_B));
    OneKey(AddrOf(MAC_A), AddrOf(MAC_B));
    r := table.InsertMac(MAC_B, 1);
  }

  lemma TwoMacs()
    ensures IsMac(MAC_A) && IsMac(MAC_B)
    ensures AddrOf(MAC_A) != AddrOf(MAC_B) && AddrOf(MAC_A) != Addr({}, {}) && AddrOf(MAC_B) != Addr({}, {})
  {
    AddrBit(MAC_A, 5, 0);
    AddrBit(MAC_B, 5, 0);
    AddrBit(MAC_B, 0, 1);
  }

  lemma OneSlotFull(slots: seq<Slot>, highwater: nat, a: Addr, b: Addr)
    requires |slots| == 1 && highwater <= 1 && TableOk(slots, highwater) && Holds(slots[0], a) && a != b
    ensures highwater == 1 && !HasRoom(slots, highwater, b)
  {
    assert highwater != 0;
  }

  lemma OneKey(a: Addr, b: Addr)
    requires a != b
    ensures b !in MapAdd(map[], 0, a, 1)
  {
  }

  function Target(found: nat, firstEmpty: nat, highwater: nat): nat {
    if found == highwater && firstEmpty != NO_EMPTY_RAR_FOUND then firstEmpty else found
  }

  const NO_EMPTY_RAR_FOUND: nat := 0xFFFF_FFFF

  lemma AddrParts(bytes: seq<Word>)
    requires IsMac(bytes)
    ensures AddrOf(bytes) == Addr(bytes[0] + Shl(bytes[1], 8, 32) + Shl(bytes[2], 16, 32) + Shl(bytes[3], 24, 32),
                                  bytes[4] + Shl(bytes[5], 8, 32))
    ensures Fits(AddrOf(bytes).low, 32) && AddrOf(bytes).high <= LOW_16
  {
  }

  /** The address is there already, a slot below the mark is free, or the mark can grow. */
  ghost predicate HasRoom(slots: seq<Slot>, highwater: nat, a: Addr)
    requires highwater <= |slots|
  {
    || (exists i :: 0 <= i < highwater && (Holds(slots[i], a) || !InUse(slots[i])))
    || highwater < |slots|
  }

  function Filled(s: Slot, a: Addr, vmdq: nat): Slot
    requires vmdq < 64 && SlotFits(s)
  {
    WithPool(s, vmdq).(ral := a.low, rah := s.rah - (LOW_16 + {AV}) + a.high + {AV})
  }

  lemma MarkIsFree(slots: seq<Slot>, highwater: nat)
    requires TableOk(slots, highwater)
    ensures highwater < |slots| ==> !InUse(slots[highwater])
  {
  }

  lemma HigherMark(slots: seq<Slot>, highwater: nat, more: nat)
    requires TableOk(slots, highwater) && highwater <= more
    ensures TableOk(slots, more)
  {
  }

  /** Writing one slot keeps the table in order. */
  lemma UpdateKeepsTable(slots: seq<Slot>, highwater: nat, i: nat, s: Slot, highwater': nat)
    requires TableOk(slots, highwater) && highwater <= highwater' && i < |slots|
    requires SlotOk(i, s) && (InUse(s) ==> i < highwater')
    requires InUse(s) ==> forall j | 0 <= j < |slots| && j != i :: !Holds(slots[j], SlotAddr(s))
    ensures TableOk(slots[i := s], highwater')
  {
    hide SlotOk;
  }

  /** What inserting address `a` for a pool makes of a slot that holds it or is free. */
  function Added(i: nat, s: Slot, a: Addr, vmdq: nat): Slot
    requires vmdq < 64 && SlotFits(s) && (!Holds(s, a) ==> SlotFits(Filled(s, a, vmdq)))
  {
    var t := if Holds(s, a) then WithPool(s, vmdq) else Filled(s, a, vmdq);
    if i == 0 then Reduced(0, t, 0) else t
  }

  lemma FilledIsOk(i: nat, s: Slot, a: Addr, vmdq: nat)
    requires vmdq < 64 && SlotOk(i, s) && Fits(a.low, 32) && a.high <= LOW_16
    ensures SlotOk(i, Filled(s, a, vmdq)) && Holds(Filled(s, a, vmdq), a)
    ensures Pools(Filled(s, a, vmdq)) == Pools(s) + {vmdq}
  {
  }

  lemma AddedIsOk(i: nat, s: Slot, a: Addr, vmdq: nat)
    requires vmdq < 64 && SlotOk(i, s) && Fits(a.low, 32) && a.high <= LOW_16
    requires Holds(s, a) || !InUse(s)
    ensures SlotFits(Filled(s, a, vmdq)) && SlotOk(i, Added(i, s, a, vmdq)) && Holds(Added(i, s, a, vmdq), a)
    ensures Pools(Added(i, s, a, vmdq)) == Pools(s) + {vmdq} - (if i == 0 then {0} else {})
  {
    FilledIsOk(i, s, a, vmdq);
    hide Filled, Pools;
  }

  /** Inserting at the slot of the address, or at a free slot when it has none. */
  lemma AddKeepsTable(slots: seq<Slot>, highwater: nat, i: nat, a: Addr, vmdq: nat)
    requires TableOk(slots, highwater) && i < |slots| && i <= highwater <= |slots|
    requires vmdq < 64 && Fits(a.low, 32) && a.high <= LOW_16
    requires Holds(slots[i], a) || (!InUse(slots[i]) && forall j | 0 <= j < highwater :: !Holds(slots[j], a))
    ensures var s := slots[i];
      && SlotFits(s) && SlotFits(Filled(s, a, vmdq)) && Holds(Added(i, s, a, vmdq), a)
      && Pools(Added(i, s, a, vmdq)) == Pools(s) + {vmdq} - (if i == 0 then {0} else {})
      && TableOk(slots[i := Added(i, s, a, vmdq)], if i == highwater then highwater + 1 else highwater)
  {
    assert SlotOk(i, slots[i]);
    AddedIsOk(i, slots[i], a, vmdq);
    hide Added, Filled, Pools;
    UpdateKeepsTable(slots, highwater, i, Added(i, slots[i], a, vmdq), if i == highwater then highwater + 1 else highwater);
  }

  /** Taking a pool away keeps the table in order; the last pool frees the slot. */
  lemma RemoveKeepsTable(slots: seq<Slot>, highwater: nat, i: nat, vmdq: nat)
    requires TableOk(slots, highwater) && i < |slots| && (vmdq < 64 || vmdq == CLEAR_VMDQ_ALL)
    ensures SlotFits(slots[i]) && TableOk(slots[i := Reduced(i, slots[i], vmdq)], highwater)
    ensures var s, r := slots[i], Reduced(i, slots[i], vmdq);
      && Pools(r) == (if vmdq == CLEAR_VMDQ_ALL then {} else Pools(s) - {vmdq})
      && (InUse(r) <==> InUse(s) && (i == 0 || Pools(r) != {}))
      && (InUse(r) ==> SlotAddr(r) == SlotAddr(s))
  {
    assert SlotOk(i, slots[i]);
    ReducedIsOk(i, slots[i], vmdq);
    hide Reduced, Pools;
    UpdateKeepsTable(slots, highwater, i, Reduced(i, slots[i], vmdq), highwater);
  }

  lemma ReducedIsOk(i: nat, s: Slot, vmdq: nat)
    requires SlotOk(i, s) && (vmdq < 64 || vmdq == CLEAR_VMDQ_ALL)
    ensures var r := Reduced(i, s, vmdq);
      && SlotOk(i, r) && Pools(r) == (if vmdq == CLEAR_VMDQ_ALL then {} else Pools(s) - {vmdq})
      && (InUse(r) <==> InUse(s) && (i == 0 || Pools(r) != {}))
      && (InUse(r) ==> SlotAddr(r) == SlotAddr(s))
  {
  }

  // ----- the table as a map from addresses to pools -----

  ghost predicate Agrees(slots: seq<Slot>, m: map<Addr, Word>) {
    && (forall i | 0 <= i < |slots| && InUse(slots[i]) ::
          SlotAddr(slots[i]) in m && m[SlotAddr(slots[i])] == Pools(slots[i]))
    && (forall a | a in m :: Listed(slots, a))
  }

  ghost predicate Listed(slots: seq<Slot>, a: Addr) {
    exists i :: 0 <= i < |slots| && Holds(slots[i], a)
  }

  /** Writing a slot that holds `a`, or is free, updates the map at `a` only. */
  lemma InsertUpdatesMap(slots: seq<Slot>, highwater: nat, m: map<Addr, Word>, i: nat, s: Slot, a: Addr)
    requires i < |slots| && TableOk(slots[i := s], highwater) && Agrees(slots, m)
    requires Holds(s, a) && (InUse(slots[i]) ==> Holds(slots[i], a))
    ensures Agrees(slots[i := s], m[a := Pools(s)])
  {
    hide Pools, SlotOk;
    var after := slots[i := s];
    forall b | b in m[a := Pools(s)] ensures Listed(after, b) {
      if b == a {
        assert Holds(after[i], a);
      } else {
        var j :| 0 <= j < |slots| && Holds(slots[j], b);
        assert Holds(after[j], b);
      }
    }
    forall j | 0 <= j < |after| && InUse(after[j]) && j != i ensures SlotAddr(after[j]) != a {
      assert after[i] == s;
    }
  }

  /** A pool joins an address; the default pool stays away from slot 0. */
  function MapAdd(m: map<Addr, Word>, slot: nat, a: Addr, vmdq: nat): map<Addr, Word> {
    m[a := SetAt(m, a) + {vmdq} - (if slot == 0 then {0} else {})]
  }

  /** A pool leaves an address, which goes with its last pool except at slot 0. */
  function MapRemove(m: map<Addr, Word>, slot: nat, a: Addr, vmdq: nat): map<Addr, Word> {
    var left := if vmdq == CLEAR_VMDQ_ALL then {} else SetAt(m, a) - {vmdq};
    if slot != 0 && left == {} then m - {a} else m[a := left]
  }

  lemma RemoveUpdatesMap(slots: seq<Slot>, highwater: nat, m: map<Addr, Word>, i: nat, vmdq: nat)
    requires TableOk(slots, highwater) && Agrees(slots, m)
    requires i < |slots| && InUse(slots[i]) && (vmdq < 64 || vmdq == CLEAR_VMDQ_ALL)
    ensures SlotFits(slots[i])
    ensures var after := slots[i := Reduced(i, slots[i], vmdq)];
      TableOk(after, highwater) && Agrees(after, MapRemove(m, i, SlotAddr(slots[i]), vmdq))
  {
    RemoveKeepsTable(slots, highwater, i, vmdq);
    var s, r := slots[i], Reduced(i, slots[i], vmdq);
    assert SetAt(m, SlotAddr(s)) == Pools(s);
    hide Reduced, Pools;
    if InUse(r) {
      InsertUpdatesMap(slots, highwater, m, i, r, SlotAddr(s));
    } else {
      FreeUpdatesMap(slots, highwater, m, i, r);
    }
  }

  lemma AddUpdatesMap(slots: seq<Slot>, highwater: nat, m: map<Addr, Word>, i: nat, a: Addr, vmdq: nat)
    requires TableOk(slots, highwater) && Agrees(slots, m) && i < |slots| && i <= highwater <= |slots|
    requires vmdq < 64 && Fits(a.low, 32) && a.high <= LOW_16
    requires Holds(slots[i], a) || (!InUse(slots[i]) && forall j | 0 <= j < highwater :: !Holds(slots[j], a))
    ensures SlotFits(slots[i]) && SlotFits(Filled(slots[i], a, vmdq))
    ensures var s := Added(i, slots[i], a, vmdq);
      && Holds(s, a) && TableOk(slots[i := s], if i == highwater then highwater + 1 else highwater)
      && Agrees(slots[i := s], MapAdd(m, i, a, vmdq))
  {
    AddKeepsTable(slots, highwater, i, a, vmdq);
    var s := Added(i, slots[i], a, vmdq);
    assert SlotOk(i, slots[i]);
    hide Added, Filled, Pools;
    InsertUpdatesMap(slots, if i == highwater then highwater + 1 else highwater, m, i, s, a);
    if a in m {
      var j :| 0 <= j < |slots| && Holds(slots[j], a);
    }
    assert SetAt(m, a) == Pools(slots[i]);
  }

  /** Freeing a slot removes its address from the map. */
  lemma FreeUpdatesMap(slots: seq<Slot>, highwater: nat, m: map<Addr, Word>, i: nat, s: Slot)
    requires TableOk(slots, highwater) && Agrees(slots, m) && i < |slots|
    requires InUse(slots[i]) && !InUse(s)
    ensures Agrees(slots[i := s], m - {SlotAddr(slots[i])})
  {
    hide Pools, SlotOk;
    var after, m' := slots[i := s], m - {SlotAddr(slots[i])};
    forall b | b in m' ensures Listed(after, b) {
      var j :| 0 <= j < |slots| && Holds(slots[j], b);
      assert Holds(after[j], b);
    }
  }
}
