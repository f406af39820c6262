/**
 The VLAN filter: VFTA, one bit per VLAN id, and in virtualisation mode VLVF with VLVFB,
 a table from VLAN ids to sets of pools.
 */
module VlanTable {
  import opened Bits
  import opened Common

  const ENTRIES: nat := 64
  const VIEN: nat := 0x8000_0000
  const VFTA_SIZE: nat := 128
  const ERR_PARAM: int := -5

  /** VLVF(i) with the two words of VLVFB that belong to it. */
  datatype Entry = Entry(vlvf: nat, lo: Word, hi: Word)

  function Pools(e: Entry): Word {
    e.lo + Shl(e.hi, 32, 64)
  }

  predicate InUse(e: Entry) {
    e.vlvf != 0
  }

  function Vlan(e: Entry): nat {
    e.vlvf % 4096
  }

  /** An entry is in use exactly while it has pools. Entry 0 belongs to VLAN 0. */
  ghost predicate EntryOk(i: nat, e: Entry) {
    && Fits(e.lo, 32) && Fits(e.hi, 32)
    && (InUse(e) <==> Pools(e) != {})
    && (InUse(e) ==> e.vlvf == VIEN + Vlan(e) && (Vlan(e) == 0 <==> i == 0))
  }

  ghost predicate TableOk(entries: seq<Entry>) {
    && |entries| == ENTRIES
    && (forall i | 0 <= i < ENTRIES :: EntryOk(i, entries[i]))
    && (forall i, j | 0 <= i < j < ENTRIES && InUse(entries[i]) && InUse(entries[j]) ::
          Vlan(entries[i]) != Vlan(entries[j]))
  }

  predicate Holds(e: Entry, vlan: nat) {
    InUse(e) && Vlan(e) == vlan
  }

  // ----- the map the table stands for -----

  ghost predicate Listed(entries: seq<Entry>, vlan: nat) {
    exists i :: 0 <= i < |entries| && Holds(entries[i], vlan)
  }

  ghost predicate Agrees(entries: seq<Entry>, m: map<nat, Word>) {
    && (forall i | 0 <= i < |entries| && InUse(entries[i]) ::
          Vlan(entries[i]) in m && m[Vlan(entries[i])] == Pools(entries[i]))
    && (forall v | v in m :: Listed(entries, v))
  }

  /** Turning a VLAN on adds a pool; turning it off removes the pool, and with the last
      pool the VLAN. */
  function MapSet(m: map<nat, Word>, vlan: nat, vind: nat, on: bool): map<nat, Word> {
    if on then m[vlan := SetAt(m, vlan) + {vind}]
    else if SetAt(m, vlan) - {vind} == {} then m - {vlan}
    else m[vlan := m[vlan] - {vind}]
  }

  /** VLAN 0 has its own entry; another VLAN needs the entry it has or a free one. */
  ghost predicate HasRoom(entries: seq<Entry>, vlan: nat) {
    vlan == 0 || exists i :: 1 <= i < |entries| && (Holds(entries[i], vlan) || !InUse(entries[i]))
  }

  function Changed(e: Entry, vlan: nat, vind: nat, on: bool): Entry {
    var r := e.(lo := if on then e.lo + {vind} else e.lo - {vind});
    r.(vlvf := if Pools(r) != {} then VIEN + vlan else 0)
  }

  lemma PoolsEmpty(e: Entry)
    requires Fits(e.hi, 32)
    ensures Pools(e) == {} <==> e.lo == {} && e.hi == {}
  {
    forall p | p in e.hi ensures p + 32 in Pools(e) {
    }
  }

  lemma ChangedIsOk(i: nat, e: Entry, vlan: nat, vind: nat, on: bool)
    requires EntryOk(i, e) && vlan < 4096 && vind < 32 && (vlan == 0 <==> i == 0)
    ensures var r := Changed(e, vlan, vind, on);
      && EntryOk(i, r) && (InUse(r) ==> Vlan(r) == vlan)
      && Pools(r) == if on then Pools(e) + {vind} else Pools(e) - {vind}
  {
  }

  lemma OthersKeep(entries: seq<Entry>, i: nat, r: Entry, vlan: nat)
    requires TableOk(entries) && i < ENTRIES && EntryOk(i, r) && (InUse(r) ==> Vlan(r) == vlan)
    requires Holds(entries[i], vlan) || !Listed(entries, vlan)
    ensures TableOk(entries[i := r])
    ensures forall j | 0 <= j < ENTRIES && j != i :: !Holds(entries[j], vlan)
  {
    hide EntryOk;
  }

  lemma UpdateAgrees(entries: seq<Entry>, m: map<nat, Word>, i: nat, r: Entry, vlan: nat)
    requires Agrees(entries, m) && i < |entries| && (InUse(r) ==> Vlan(r) == vlan)
    requires InUse(entries[i]) ==> Vlan(entries[i]) == vlan
    requires forall j | 0 <= j < |entries| && j != i :: !Holds(entries[j], vlan)
    ensures Agrees(entries[i := r], if InUse(r) then m[vlan := Pools(r)] else m - {vlan})
  {
    hide Pools, Vlan;
    var after, m' := entries[i := r], if InUse(r) then m[vlan := Pools(r)] else m - {vlan};
    forall v | v in m' ensures Listed(after, v) {
      if v == vlan {
        assert Holds(after[i], vlan);
      } else {
        var j :| 0 <= j < |entries| && Holds(entries[j], v);
        assert Holds(after[j], v);
      }
    }
  }

  /** Changing the pools of an entry that holds the VLAN, or is free while no entry holds
      it, keeps the table in order and changes the map at that VLAN only. */
  lemma ChangeUpdatesMap(entries: seq<Entry>, m: map<nat, Word>, i: nat, vlan: nat, vind: nat, on: bool)
    requires TableOk(entries) && Agrees(entries, m) && i < ENTRIES && vlan < 4096 && vind < 32 && (vlan == 0 <==> i == 0)
    requires Holds(entries[i], vlan) || (!InUse(entries[i]) && !Listed(entries, vlan))
    ensures var after := entries[i := Changed(entries[i], vlan, vind, on)];
      TableOk(after) && Agrees(after, MapSet(m, vlan, vind, on))
  {
    hide Changed, Pools;
    var e, r := entries[i], Changed(entries[i], vlan, vind, on);
    assert EntryOk(i, e);
    ChangedIsOk(i, e, vlan, vind, on);
    OthersKeep(entries, i, r, vlan);
    UpdateAgrees(entries, m, i, r, vlan);
    assert SetAt(m, vlan) == Pools(e);
  }

  class Filter {
    var vfta: seq<Word>
    var entries: seq<Entry>
    ghost var view: map<nat, Word>

    ghost predicate Valid()
      reads this
    {
      |vfta| == VFTA_SIZE && TableOk(entries) && Agrees(entries, view)
    }

    /** ixgbe_find_vlvf_slot */
    method FindSlot(vlan: nat) returns (slot: int)
      requires TableOk(entries) && 0 < vlan < 4096
      ensures slot == -1 || 1 <= slot < ENTRIES
      ensures slot != -1 <==> HasRoom(entries, vlan)
      ensures slot != -1 ==> Holds(entries[slot], vlan) || (!InUse(entries[slot]) && !Listed(entries, vlan))
    {
      hide Pools;
      var firstEmpty := 0;
      slot := 1;
      while slot < ENTRIES
        invariant 1 <= slot <= ENTRIES
        invariant forall i | 1 <= i < slot :: !Holds(entries[i], vlan)
        invariant if firstEmpty == 0 then forall i | 1 <= i < slot :: InUse(entries[i])
                  else 1 <= firstEmpty < slot && !InUse(entries[firstEmpty])
        decreases ENTRIES - slot
      {
        var bits := entries[slot].vlvf;
        if bits == 0 && firstEmpty == 0 {
          firstEmpty := slot;
        } else if bits % 4096 == vlan {
          break;
        }
        slot := slot + 1;
      }
      assert EntryOk(0, entries[0]);
      if slot >= ENTRIES {
        if firstEmpty != 0 {
          slot := firstEmpty;
        } else {
          slot := -1;
        }
      }
    }

    /** ixgbe_set_vfta_82599. `vt` says whether virtualisation mode is on. A VLAN that needs an
        entry of a full table is not added, and the call still reports success. */
    method SetVfta(vlan: nat, vind: nat, on: bool, vt: bool) returns (status: int)
      requires Valid() && (vt ==> vind < 32)
      modifies this
      ensures Valid()
      ensures vlan > 4095 ==> status == ERR_PARAM && vfta == old(vfta) && view == old(view)
      ensures vlan <= 4095 ==>
        && status == 0
        && vfta == old(vfta)[vlan / 32 := if on then old(vfta)[vlan / 32] + {vlan % 32} else old(vfta)[vlan / 32] - {vlan % 32}]
        && view == if vt && HasRoom(old(entries), vlan) then MapSet(old(view), vlan, vind, on) else old(view)
    {
      hide TableOk, Agrees, MapSet, InUse, Vlan, EntryOk;
      if vlan > 4095 {
        return ERR_PARAM;
      }
      var regindex := (vlan / 32) % 128;
      var bitindex := vlan % 32;
      var bits: Word := vfta[regindex];
      if on {
        bits := bits + {bitindex};
      } else {
        bits := bits - {bitindex};
      }
      vfta := vfta[regindex := bits];
      if vt {
        var slot: int;
        if vlan == 0 {
          slot := 0;
          EntryZero(entries);
        } else {
          slot := FindSlot(vlan);
          if slot < 0 {
            return 0;
          }
        }
        ChangeUpdatesMap(entries, view, slot, vlan, vind, on);
        ChangeEntry(slot, vlan, vind, on);
        view := MapSet(view, vlan, vind, on);
      }
      status := 0;
    }

    /** The writes of VLVFB and VLVF. */
    method ChangeEntry(i: nat, vlan: nat, vind: nat, on: bool)
      requires TableOk(entries) && i < ENTRIES && vind < 32
      modifies this`entries
      ensures entries == old(entries)[i := Changed(old(entries)[i], vlan, vind, on)]
    {
      assert EntryOk(i, entries[i]);
      var bits: Word;
      if on {
        bits := entries[i].lo + {vind};
        entries := entries[i := entries[i].(lo := bits)];
      } else {
        bits := entries[i].lo - {vind};
        entries := entries[i := entries[i].(lo := bits)];
        bits := bits + entries[i].hi;
      }
      PoolsEmpty(entries[i]);
      if bits != {} {
        entries := entries[i := entries[i].(vlvf := VIEN + vlan)];
      } else {
        entries := entries[i := entries[i].(vlvf := 0)];
      }
    }

    /** ixgbe_clear_vfta_82599 */
    method ClearVfta()
      requires |vfta| == VFTA_SIZE && |entries| == ENTRIES
      modifies this
      ensures Valid() && view == map[] && forall i | 0 <= i < VFTA_SIZE :: vfta[i] == {}
    {
      for offset := 0 to VFTA_SIZE
        invariant |vfta| == VFTA_SIZE && |entries| == ENTRIES && forall i | 0 <= i < offset :: vfta[i] == {}
      {
        vfta := vfta[offset := {}];
      }
      for offset := 0 to ENTRIES
        invariant |vfta| == VFTA_SIZE && forall i | 0 <= i < VFTA_SIZE :: vfta[i] == {}
        invariant |entries| == ENTRIES && forall i | 0 <= i < offset :: entries[i] == Entry(0, {}, {})
      {
        entries := entries[offset := Entry(0, {}, {})];
      }
      view := map[];
    }
  }

  lemma EntryZero(entries: seq<Entry>)
    requires TableOk(entries)
    ensures Holds(entries[0], 0) || (!InUse(entries[0]) && !Listed(entries, 0))
  {
    hide Pools;
    assert EntryOk(0, entries[0]);
    forall i | 1 <= i < ENTRIES ensures !Holds(entries[i], 0) {
      assert EntryOk(i, entries[i]);
    }
  }
}
