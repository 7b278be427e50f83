/**
 The table behind `dyn` values, as a state: slots named by handles that carry both the slot's
 and the pool's generation.  A handle is either good (it names a block its pool still owns) or
 stale, and stale is for ever.
 */
module DynState {
  import opened Wrappers
  import opened Chains
  import opened PoolBirth
  import opened PoolState

  datatype Slot = Slot(pid: int, pgen: int, gen: int, next: int, addr: nat)

  datatype Handle = Handle(pid: int, slot: int, gen: int, pgen: int)

  /** `issued` remembers, for every handle handed out, the address it was issued for. */
  datatype Table = Table(slots: seq<Slot>, n: int, free: int, liveN: int, freeChain: seq<int>, issued: map<Handle, nat>)

  /** The slot's pool is alive, an object table, and of the generation the slot was filled in. */
  predicate Current(v: View, pid: int, pgen: int)
    requires |v.kind| == |v.pools|
  {
    Live(v, pid) && v.kind[pid] == 1 && v.pools[pid].generation == pgen
  }

  /** `extc_dyn_slot` without the message: the slot a handle resolves to, or None for a trap. */
  function Resolve(t: Table, v: View, h: Handle): Option<int>
    requires |v.kind| == |v.pools| && 0 <= t.n <= |t.slots|
  {
    if h.slot < 0 || h.slot >= t.n then None
    else
      var s := t.slots[h.slot];
      if s.pid < 0 || s.pid != h.pid || s.gen != h.gen then None
      else if !Current(v, h.pid, h.pgen) then None
      else Some(h.slot)
  }

  /** A filled slot: its pool has existed, and if that pool is still current it owns the address. */
  ghost predicate SlotOk(v: View, s: Slot)
    requires |v.kind| == |v.pools|
  {
    && 0 <= s.pid < |v.pools| && 1 <= s.pgen <= v.pools[s.pid].generation && v.kind[s.pid] == 1
    && (Current(v, s.pid, s.pgen) ==> OwnsAddr(v, s.pid, s.addr))
  }

  /** An issued handle is behind its slot, or agrees with what the slot holds. */
  ghost predicate HandleOk(t: Table, h: Handle)
    requires 0 <= t.n <= |t.slots| && h in t.issued
  {
    && 0 <= h.slot < t.n && h.gen <= t.slots[h.slot].gen
    && (h.gen == t.slots[h.slot].gen ==>
          var s := t.slots[h.slot]; 0 <= s.pid == h.pid && s.pgen == h.pgen && s.addr == t.issued[h])
  }

  ghost predicate FreeSlots(t: Table)
    requires 0 <= t.n <= |t.slots|
  {
    && t.free == At(t.freeChain, 0) && NoDup(t.freeChain)
    && (forall i | 0 <= i < |t.freeChain| :: 0 <= t.freeChain[i] < t.n && t.slots[t.freeChain[i]].pid < 0)
    && forall i {:trigger t.slots[t.freeChain[i]].next} | 0 <= i < |t.freeChain| ::
      t.slots[t.freeChain[i]].next == At(t.freeChain, i + 1)
  }

  function Filled(t: Table): set<int>
    requires 0 <= t.n <= |t.slots|
  {
    set i | 0 <= i < t.n && t.slots[i].pid >= 0
  }

  ghost predicate SlotsOk(t: Table, v: View)
    requires |v.kind| == |v.pools| && 0 <= t.n <= |t.slots|
  {
    forall i {:trigger SlotOk(v, t.slots[i])} | 0 <= i < t.n && t.slots[i].pid >= 0 :: SlotOk(v, t.slots[i])
  }

  ghost predicate HandlesOk(t: Table)
    requires 0 <= t.n <= |t.slots|
  {
    forall h {:trigger HandleOk(t, h)} | h in t.issued :: HandleOk(t, h)
  }

  /** A filled slot whose pool is current. */
  predicate InUse(v: View, s: Slot)
    requires |v.kind| == |v.pools|
  {
    s.pid >= 0 && Current(v, s.pid, s.pgen)
  }

  /** No two slots in use have the same block. */
  ghost predicate Apart(t: Table, v: View)
    requires |v.kind| == |v.pools| && 0 <= t.n <= |t.slots|
  {
    forall i, j {:trigger InUse(v, t.slots[i]), InUse(v, t.slots[j])} | 0 <= i < j < t.n ::
      InUse(v, t.slots[i]) && InUse(v, t.slots[j]) ==> t.slots[i].addr != t.slots[j].addr
  }

  /** No slot in use has the block at this address. */
  ghost predicate AddrFree(t: Table, v: View, addr: nat)
    requires |v.kind| == |v.pools| && 0 <= t.n <= |t.slots|
  {
    forall i {:trigger InUse(v, t.slots[i])} | 0 <= i < t.n :: InUse(v, t.slots[i]) ==> t.slots[i].addr != addr
  }

  /** What holds of the table between operations, with respect to the registry. */
  ghost predicate TableInv(t: Table, v: View) {
    && |v.kind| == |v.pools| && 0 <= t.n <= |t.slots|
    && FreeSlots(t) && t.liveN == |Filled(t)| && SlotsOk(t, v) && HandlesOk(t) && Apart(t, v)
    && forall i | t.n <= i < |t.slots| :: t.slots[i].pid < 0
  }

  /** Every slot that holds nothing is on the free chain. */
  ghost predicate Complete(t: Table)
    requires 0 <= t.n <= |t.slots|
  {
    forall i {:trigger t.slots[i]} | 0 <= i < t.n :: t.slots[i].pid < 0 ==> i in t.freeChain
  }

  // ---------------------------------------------------------------- what a good handle gives

  /** A handle that resolves leads to an address its pool owns, the one it was issued for. */
  lemma {:induction false} GoodHandleIsOwned(t: Table, v: View, h: Handle)
    requires TableInv(t, v) && h in t.issued && Resolve(t, v, h).Some?
    ensures Resolve(t, v, h) == Some(h.slot)
    ensures t.slots[h.slot].addr == t.issued[h] && OwnsAddr(v, h.pid, t.issued[h]) && Live(v, h.pid)
  {
    assert HandleOk(t, h) && SlotOk(v, t.slots[h.slot]);
  }

  /** For an issued handle, resolving is a matter of two generations. */
  lemma {:induction false} ResolvesIff(t: Table, v: View, h: Handle)
    requires TableInv(t, v) && h in t.issued
    ensures 0 <= h.slot < |t.slots|
    ensures Resolve(t, v, h).Some? <==> h.gen == t.slots[h.slot].gen && Current(v, h.pid, h.pgen)
  {
    assert HandleOk(t, h);
  }

  /** Two different handles that resolve lead to different blocks. */
  lemma {:induction false} GoodHandlesApart(t: Table, v: View, h: Handle, o: Handle)
    requires TableInv(t, v) && h in t.issued && o in t.issued && h != o
    requires Resolve(t, v, h).Some? && Resolve(t, v, o).Some?
    ensures h.slot != o.slot && t.issued[h] != t.issued[o]
  {
    GoodHandleIsOwned(t, v, h);
    GoodHandleIsOwned(t, v, o);
    assert HandleOk(t, h) && HandleOk(t, o);
    assert InUse(v, t.slots[h.slot]) && InUse(v, t.slots[o.slot]);
  }

  /** Slots in use stay apart if every one was in use before, with the same block. */
  lemma {:induction false} ApartStays(t: Table, v: View, u: Table, w: View)
    requires |v.kind| == |v.pools| && |w.kind| == |w.pools| && 0 <= t.n <= |t.slots| && 0 <= u.n <= |u.slots|
    requires forall k | 0 <= k < u.n && InUse(w, u.slots[k]) ::
               k < t.n && InUse(v, t.slots[k]) && u.slots[k].addr == t.slots[k].addr
    requires Apart(t, v)
    ensures Apart(u, w)
    ensures forall addr: nat | AddrFree(t, v, addr) :: AddrFree(u, w, addr)
  {
  }

  // ---------------------------------------------------------------- stale is for ever

  /** No handle of `t` that traps there resolves in `u`, and none changes its address. */
  ghost predicate StaleStays(t: Table, v: View, u: Table, w: View)
    requires |v.kind| == |v.pools| && |w.kind| == |w.pools| && 0 <= t.n <= |t.slots| && 0 <= u.n <= |u.slots|
  {
    forall h | h in t.issued ::
      && h in u.issued && u.issued[h] == t.issued[h]
      && (Resolve(t, v, h).None? ==> Resolve(u, w, h).None?)
  }

  /** Every handle of `t` is still issued, for the same address, and as good or stale as it was. */
  ghost predicate SameStatus(t: Table, v: View, u: Table, w: View)
    requires |v.kind| == |v.pools| && |w.kind| == |w.pools| && 0 <= t.n <= |t.slots| && 0 <= u.n <= |u.slots|
  {
    forall h | h in t.issued ::
      && h in u.issued && u.issued[h] == t.issued[h]
      && (Resolve(t, v, h).Some? <==> Resolve(u, w, h).Some?)
  }

  lemma {:induction false} SameStatusTrans(t0: Table, v0: View, t1: Table, v1: View, t2: Table, v2: View)
    requires |v0.kind| == |v0.pools| && |v1.kind| == |v1.pools| && |v2.kind| == |v2.pools|
    requires 0 <= t0.n <= |t0.slots| && 0 <= t1.n <= |t1.slots| && 0 <= t2.n <= |t2.slots|
    requires SameStatus(t0, v0, t1, v1) && SameStatus(t1, v1, t2, v2)
    ensures SameStatus(t0, v0, t2, v2) && StaleStays(t0, v0, t2, v2)
  {
  }

  /** Registry steps that keep every current table current leave all handles as they were. */
  lemma {:induction false} GentleStep(t: Table, v: View, w: View)
    requires TableInv(t, v) && |w.kind| == |w.pools| && Evolves(v, w)
    requires forall p, g | Current(v, p, g) :: Current(w, p, g)
    ensures TableInv(t, w) && SameStatus(t, v, t, w)
  {
    RegistryStep(t, v, w);
  }

  /** Whatever the registry does, the table stays in order and stale handles stay stale. */
  lemma {:induction false} RegistryStep(t: Table, v: View, w: View)
    requires TableInv(t, v) && |w.kind| == |w.pools| && Evolves(v, w)
    ensures TableInv(t, w) && StaleStays(t, v, t, w)
  {
    forall i | 0 <= i < t.n && t.slots[i].pid >= 0
      ensures SlotOk(w, t.slots[i]) && (InUse(w, t.slots[i]) ==> InUse(v, t.slots[i]))
    {
      assert SlotOk(v, t.slots[i]);
      SlotStays(v, w, t.slots[i]);
    }
    ApartStays(t, v, t, w);
    forall h | h in t.issued && Resolve(t, v, h).None? ensures Resolve(t, w, h).None? {
      assert HandleOk(t, h);
      if h.gen == t.slots[h.slot].gen {
        assert SlotOk(v, t.slots[h.slot]) && PoolEvolves(v, w, h.pid);
      }
    }
  }

  lemma {:induction false} SlotStays(v: View, w: View, s: Slot)
    requires |v.kind| == |v.pools| && |w.kind| == |w.pools| && Evolves(v, w) && SlotOk(v, s)
    ensures SlotOk(w, s) && (InUse(w, s) ==> InUse(v, s))
  {
    assert PoolEvolves(v, w, s.pid);
    if Current(w, s.pid, s.pgen) {
      assert Current(v, s.pid, s.pgen);
      var b :| b in v.pools[s.pid].blocks && b.addr == s.addr;
      assert b in w.pools[s.pid].blocks;
    }
  }

  // ---------------------------------------------------------------- sweeping

  predicate Dead(v: View, s: Slot)
    requires |v.kind| == |v.pools|
  {
    s.pid >= 0 && !Current(v, s.pid, s.pgen)
  }

  function Retired(s: Slot, free: int): Slot {
    s.(gen := s.gen + 1, pid := -1, next := free)
  }

  /** Slot `i` is retired and pushed on the free chain. */
  ghost function RetiredAt(t: Table, i: int): Table
    requires 0 <= i < |t.slots|
  {
    t.(slots := t.slots[i := Retired(t.slots[i], t.free)], free := i, liveN := t.liveN - 1,
      freeChain := [i] + t.freeChain)
  }

  /** Retiring a dead slot hurts no good handle. */
  lemma {:induction false} RetireStep(t: Table, v: View, i: int)
    requires TableInv(t, v) && 0 <= i < t.n && Dead(v, t.slots[i])
    ensures TableInv(RetiredAt(t, i), v) && SameStatus(t, v, RetiredAt(t, i), v)
  {
    RetireFree(t, i);
    RetireHandles(t, v, i);
    RetireSlots(t, v, i);
  }

  lemma {:induction false} RetireSlots(t: Table, v: View, i: int)
    requires TableInv(t, v) && 0 <= i < t.n && t.slots[i].pid >= 0
    ensures SlotsOk(RetiredAt(t, i), v) && Apart(RetiredAt(t, i), v)
    ensures t.liveN - 1 == |Filled(RetiredAt(t, i))|
  {
    var u := RetiredAt(t, i);
    ApartStays(t, v, u, v);
    forall k | 0 <= k < u.n && u.slots[k].pid >= 0 ensures SlotOk(v, u.slots[k]) {
      assert SlotOk(v, t.slots[k]);
    }
    assert Filled(u) == Filled(t) - {i};
  }

  lemma {:induction false} RetireHandles(t: Table, v: View, i: int)
    requires |v.kind| == |v.pools| && 0 <= t.n <= |t.slots| && HandlesOk(t) && 0 <= i < t.n && Dead(v, t.slots[i])
    ensures HandlesOk(RetiredAt(t, i)) && SameStatus(t, v, RetiredAt(t, i), v)
  {
    var u := RetiredAt(t, i);
    forall h | h in u.issued ensures HandleOk(u, h) && Resolve(u, v, h) == Resolve(t, v, h) {
      assert HandleOk(t, h);
    }
  }

  lemma {:induction false} RetireFree(t: Table, i: int)
    requires 0 <= t.n <= |t.slots| && FreeSlots(t) && 0 <= i < t.n && t.slots[i].pid >= 0
    ensures FreeSlots(RetiredAt(t, i))
  {
    var u := RetiredAt(t, i);
    forall k | 0 <= k < |t.freeChain| ensures t.freeChain[k] != i {
    }
    forall k | 0 <= k < |u.freeChain|
      ensures 0 <= u.freeChain[k] < u.n && u.slots[u.freeChain[k]].pid < 0
      ensures u.slots[u.freeChain[k]].next == At(u.freeChain, k + 1)
    {
      if k > 0 {
        assert u.freeChain[k] == t.freeChain[k - 1];
        assert t.slots[t.freeChain[k - 1]].next == At(t.freeChain, k);
      }
    }
  }

  lemma {:induction false} RetireCompletes(t: Table, i: int)
    requires 0 <= i < t.n <= |t.slots| && Complete(t)
    ensures Complete(RetiredAt(t, i))
  {
    var u := RetiredAt(t, i);
    forall k | 0 <= k < u.n && u.slots[k].pid < 0 ensures k in u.freeChain {
      assert k != i ==> t.slots[k].pid < 0 && k in t.freeChain;
    }
  }

  // ---------------------------------------------------------------- taking a slot

  /** The table once a slot has been taken off the free chain or added at the end, before it is filled. */
  ghost predicate SlotReady(t: Table, i: int) {
    && 0 <= i < t.n <= |t.slots| && t.slots[i].pid < 0 && i !in t.freeChain
    && forall h | h in t.issued :: h.slot == i ==> h.gen < t.slots[i].gen
  }

  ghost function PoppedSlot(t: Table): Table
    requires t.freeChain != [] && 0 <= t.free < |t.slots|
  {
    t.(free := t.slots[t.free].next, freeChain := t.freeChain[1..])
  }

  lemma {:induction false} FreeHead(t: Table)
    requires 0 <= t.n <= |t.slots| && FreeSlots(t) && t.free >= 0
    ensures t.freeChain != [] && t.freeChain[0] == t.free < t.n && t.slots[t.free].pid < 0
  {
  }

  lemma {:induction false} PopSlot(t: Table, v: View)
    requires TableInv(t, v) && t.free >= 0
    ensures t.freeChain != [] && 0 <= t.free < |t.slots|
    ensures TableInv(PoppedSlot(t), v) && SlotReady(PoppedSlot(t), t.free)
    ensures SameStatus(t, v, PoppedSlot(t), v)
    ensures forall addr: nat | AddrFree(t, v, addr) :: AddrFree(PoppedSlot(t), v, addr)
  {
    FreeHead(t);
    PopFree(t);
    SameSlots(t, v, PoppedSlot(t));
    forall h | h in t.issued && h.slot == t.free ensures h.gen < t.slots[t.free].gen {
      assert HandleOk(t, h);
    }
  }

  lemma {:induction false} PopFree(t: Table)
    requires 0 <= t.n <= |t.slots| && FreeSlots(t) && t.free >= 0 && t.freeChain != [] && t.free < |t.slots|
    ensures FreeSlots(PoppedSlot(t)) && t.free !in PoppedSlot(t).freeChain
  {
    var u := PoppedSlot(t);
    TailOfChain(t.freeChain);
    assert t.slots[t.freeChain[0]].next == At(t.freeChain, 1);
    forall k | 0 <= k < |u.freeChain|
      ensures 0 <= u.freeChain[k] < u.n && u.slots[u.freeChain[k]].pid < 0
      ensures u.slots[u.freeChain[k]].next == At(u.freeChain, k + 1)
    {
      assert t.slots[t.freeChain[k + 1]].next == At(t.freeChain, k + 2);
    }
  }

  /** Slots and handles do not depend on the free chain, nor on slots never handed out. */
  lemma {:induction false} SameSlots(t: Table, v: View, u: Table)
    requires TableInv(t, v) && t.n <= u.n <= |u.slots| && t.n <= |t.slots| && u.issued == t.issued
    requires forall k | 0 <= k < t.n :: u.slots[k] == t.slots[k]
    requires forall k | t.n <= k < |u.slots| :: u.slots[k].pid < 0
    ensures SlotsOk(u, v) && HandlesOk(u) && Filled(u) == Filled(t) && SameStatus(t, v, u, v)
    ensures Apart(u, v) && forall addr: nat | AddrFree(t, v, addr) :: AddrFree(u, v, addr)
  {
    ApartStays(t, v, u, v);
    forall k | 0 <= k < u.n && u.slots[k].pid >= 0 ensures SlotOk(v, u.slots[k]) {
      assert SlotOk(v, t.slots[k]);
    }
    forall h | h in u.issued ensures HandleOk(u, h) && Resolve(u, v, h) == Resolve(t, v, h) {
      assert HandleOk(t, h);
    }
    assert Filled(u) == Filled(t);
  }

  ghost function AddedSlot(t: Table): Table {
    t.(n := t.n + 1)
  }

  /** The next unused slot is handed out; it has never been named by a handle. */
  lemma {:induction false} AddSlot(t: Table, v: View)
    requires TableInv(t, v) && t.free < 0 && t.n < |t.slots|
    ensures TableInv(AddedSlot(t), v) && SlotReady(AddedSlot(t), t.n)
    ensures SameStatus(t, v, AddedSlot(t), v)
    ensures forall addr: nat | AddrFree(t, v, addr) :: AddrFree(AddedSlot(t), v, addr)
  {
    assert t.freeChain == [];
    SameSlots(t, v, AddedSlot(t));
    forall h | h in t.issued ensures h.slot != t.n {
      assert HandleOk(t, h);
    }
  }

  function NeverUsed(): Slot {
    Slot(-1, 0, 0, -1, 0)
  }

  ghost function Widened(t: Table, more: nat): Table {
    t.(slots := Padded(t.slots, more, NeverUsed()))
  }

  /** More slots at the end change nothing. */
  lemma {:induction false} MoreSlots(t: Table, v: View, more: nat)
    requires TableInv(t, v)
    ensures TableInv(Widened(t, more), v) && SameStatus(t, v, Widened(t, more), v)
  {
    SameSlots(t, v, Widened(t, more));
    WiderFree(t, Widened(t, more));
  }

  lemma {:induction false} WiderFree(t: Table, u: Table)
    requires 0 <= t.n <= |t.slots| && FreeSlots(t) && t.slots <= u.slots && u == t.(slots := u.slots)
    ensures FreeSlots(u)
  {
    forall k | 0 <= k < |t.freeChain| ensures u.slots[u.freeChain[k]].next == At(u.freeChain, k + 1) {
      assert t.slots[t.freeChain[k]].next == At(t.freeChain, k + 1);
    }
  }

  // ---------------------------------------------------------------- filling a slot

  ghost function FilledAt(t: Table, i: int, pid: int, pgen: int, addr: nat): Table
    requires 0 <= i < |t.slots|
  {
    var s := t.slots[i].(pid := pid, pgen := pgen, addr := addr);
    t.(slots := t.slots[i := s], liveN := t.liveN + 1, issued := t.issued[Handle(pid, i, s.gen, pgen) := addr])
  }

  /** Filling a ready slot for a current pool: the new handle is good, every other handle is as it was. */
  lemma {:induction false} FillStep(t: Table, v: View, i: int, pid: int, pgen: int, addr: nat)
    requires TableInv(t, v) && SlotReady(t, i)
    requires Current(v, pid, pgen) && pgen >= 1 && OwnsAddr(v, pid, addr) && AddrFree(t, v, addr)
    ensures var u, h := FilledAt(t, i, pid, pgen, addr), Handle(pid, i, t.slots[i].gen, pgen);
            && TableInv(u, v) && h !in t.issued && Resolve(u, v, h) == Some(i)
            && SameStatus(t, v, u, v)
  {
    FillFree(t, FilledAt(t, i, pid, pgen, addr), i);
    FillSlots(t, v, i, pid, pgen, addr);
    FillApart(t, v, i, pid, pgen, addr);
    FillHandles(t, v, i, pid, pgen, addr);
  }

  lemma {:induction false} FillSlots(t: Table, v: View, i: int, pid: int, pgen: int, addr: nat)
    requires TableInv(t, v) && 0 <= i < t.n && t.slots[i].pid < 0
    requires Current(v, pid, pgen) && pgen >= 1 && OwnsAddr(v, pid, addr)
    ensures SlotsOk(FilledAt(t, i, pid, pgen, addr), v)
    ensures |Filled(FilledAt(t, i, pid, pgen, addr))| == t.liveN + 1
  {
    var u := FilledAt(t, i, pid, pgen, addr);
    forall k | 0 <= k < u.n && u.slots[k].pid >= 0 ensures SlotOk(v, u.slots[k]) {
      assert k != i ==> SlotOk(v, t.slots[k]);
    }
    assert Filled(u) == Filled(t) + {i};
  }

  lemma {:induction false} FillApart(t: Table, v: View, i: int, pid: int, pgen: int, addr: nat)
    requires |v.kind| == |v.pools| && 0 <= i < t.n <= |t.slots| && Apart(t, v) && AddrFree(t, v, addr)
    ensures Apart(FilledAt(t, i, pid, pgen, addr), v)
  {
    var u := FilledAt(t, i, pid, pgen, addr);
    forall j, k | 0 <= j < k < t.n && InUse(v, u.slots[j]) && InUse(v, u.slots[k])
      ensures u.slots[j].addr != u.slots[k].addr
    {
      assert j != i ==> InUse(v, t.slots[j]);
      assert k != i ==> InUse(v, t.slots[k]);
    }
  }

  lemma {:induction false} FillHandles(t: Table, v: View, i: int, pid: int, pgen: int, addr: nat)
    requires |v.kind| == |v.pools| && 0 <= t.n <= |t.slots| && HandlesOk(t) && SlotReady(t, i)
    requires Current(v, pid, pgen)
    ensures var u, h := FilledAt(t, i, pid, pgen, addr), Handle(pid, i, t.slots[i].gen, pgen);
            HandlesOk(u) && h !in t.issued && Resolve(u, v, h) == Some(i) && SameStatus(t, v, u, v)
  {
    var u, h := FilledAt(t, i, pid, pgen, addr), Handle(pid, i, t.slots[i].gen, pgen);
    assert h !in t.issued;
    forall o | o in u.issued ensures HandleOk(u, o) && (o != h ==> Resolve(u, v, o) == Resolve(t, v, o)) {
      assert o != h ==> HandleOk(t, o);
    }
  }

  lemma {:induction false} FillFree(t: Table, u: Table, i: int)
    requires 0 <= t.n <= |t.slots| == |u.slots| && FreeSlots(t) && i !in t.freeChain
    requires u.free == t.free && u.freeChain == t.freeChain && u.n == t.n
    requires forall k | 0 <= k < |t.slots| && k != i :: u.slots[k] == t.slots[k]
    ensures FreeSlots(u)
  {
    forall k | 0 <= k < |t.freeChain|
      ensures t.freeChain[k] != i && u.slots[u.freeChain[k]].next == At(u.freeChain, k + 1)
    {
      assert t.freeChain[k] in t.freeChain;
      assert t.slots[t.freeChain[k]].next == At(t.freeChain, k + 1);
    }
  }

  // ---------------------------------------------------------------- which slot is taken

  /** No slot is free and none is left. */
  predicate Full(t: Table) {
    t.free < 0 && t.n >= |t.slots|
  }

  ghost predicate SomeDead(v: View, t: Table)
    requires |v.kind| == |v.pools| && 0 <= t.n <= |t.slots|
  {
    exists i | 0 <= i < t.n :: Dead(v, t.slots[i])
  }

  /** Of the first `n` slots the one at `i` is dead, and none after it. */
  ghost predicate LastDead(v: View, slots: seq<Slot>, n: int, i: int)
    requires |v.kind| == |v.pools| && 0 <= n <= |slots|
  {
    0 <= i < n && Dead(v, slots[i]) && forall k | i < k < n :: !Dead(v, slots[k])
  }

  /**
   How room is made: a table that is not full is left alone; in a full one dead slots are looked for
   first, and only if there is none, so that every slot is in use, it is enlarged.
   */
  ghost predicate RoomMade(v: View, t: Table, u: Table)
    requires |v.kind| == |v.pools| && 0 <= t.n <= |t.slots|
  {
    if !Full(t) then u == t
    else if SomeDead(v, t) then
      && |u.slots| == |t.slots| && u.n == t.n && LastDead(v, t.slots, t.n, u.free)
      && u.slots[u.free].gen == t.slots[u.free].gen + 1
    else
      && |u.slots| == Wanted(|t.slots|) && u.n == t.n == |t.slots| < |u.slots| && u.free < 0
      && t.slots <= u.slots && u.slots[u.n] == NeverUsed()
      && forall i | 0 <= i < t.n :: InUse(v, t.slots[i])
  }

  /** Which slot a value gets, in which generation, and how large the table is then. */
  ghost predicate Chose(v: View, t: Table, size: int, slot: int, gen: int)
    requires |v.kind| == |v.pools| && 0 <= t.n <= |t.slots|
  {
    if !Full(t) then
      size == |t.slots| && slot == (if t.free >= 0 then t.free else t.n) < size && gen == t.slots[slot].gen
    else if SomeDead(v, t) then
      size == |t.slots| && LastDead(v, t.slots, t.n, slot) && gen == t.slots[slot].gen + 1
    else
      size == Wanted(|t.slots|) && slot == |t.slots| && gen == 0 && forall i | 0 <= i < t.n :: InUse(v, t.slots[i])
  }

  lemma {:induction false} RoomIsChosen(v: View, t: Table, u: Table)
    requires TableInv(t, v) && TableInv(u, v) && RoomMade(v, t, u) && !Full(u)
    ensures 0 <= Chosen(u) < |u.slots| && Chose(v, t, |u.slots|, Chosen(u), u.slots[Chosen(u)].gen)
  {
    if u.free >= 0 {
      FreeHead(u);
    }
  }

  /** In a full table where every empty slot is on the free chain, a slot that is not dead is in use. */
  lemma {:induction false} FullAndLive(v: View, t: Table)
    requires TableInv(t, v) && Complete(t) && Full(t) && !SomeDead(v, t)
    ensures t.n == |t.slots| && forall i | 0 <= i < t.n :: InUse(v, t.slots[i])
  {
    assert t.freeChain == [];
  }

  /** Registry steps that keep every current table current do not change which slots are dead. */
  lemma {:induction false} SameChoice(t: Table, v: View, w: View, size: int, slot: int, gen: int)
    requires TableInv(t, v) && |w.kind| == |w.pools| && Evolves(v, w) && Chose(w, t, size, slot, gen)
    requires forall p, g | Current(v, p, g) :: Current(w, p, g)
    ensures Chose(v, t, size, slot, gen)
  {
    forall i | 0 <= i < t.n
      ensures Dead(v, t.slots[i]) <==> Dead(w, t.slots[i])
      ensures InUse(v, t.slots[i]) <==> InUse(w, t.slots[i])
    {
      if t.slots[i].pid >= 0 {
        assert SlotOk(v, t.slots[i]);
        SlotStays(v, w, t.slots[i]);
      }
    }
    assert SomeDead(v, t) <==> SomeDead(w, t);
  }

  // ---------------------------------------------------------------- runs

  datatype Moment = Moment(t: Table, v: View)

  /** The slot `put` fills: the head of the free chain, or the next one never used. */
  ghost function Chosen(t: Table): int {
    if t.free >= 0 then t.free else t.n
  }

  /** The table with that slot taken. */
  ghost function SlotTaken(t: Table): Table
    requires t.free >= 0 ==> t.freeChain != [] && t.free < |t.slots|
  {
    if t.free >= 0 then PoppedSlot(t) else AddedSlot(t)
  }

  /** What the operations do to the table and the registry, one at a time. */
  datatype Step =
    | RegistryMoves
    | SlotRetires(i: int)
    | TableWidens(more: nat)
    | SlotFills(pid: int, pgen: int, addr: nat)

  /**
   One step of a run.  The registry evolves, as its operations do, and the table is not touched; or the
   registry is not touched, and the sweep retires a dead slot, the table gets more slots, or a slot is
   taken and filled for a block that a current pool owns and no slot in use has.
   */
  ghost predicate Stepped(a: Moment, b: Moment, s: Step) {
    && |a.v.kind| == |a.v.pools| && |b.v.kind| == |b.v.pools| && 0 <= a.t.n <= |a.t.slots|
    && (s.RegistryMoves? || b.v == a.v)
    && match s
       case RegistryMoves => b.t == a.t && Evolves(a.v, b.v)
       case SlotRetires(i) => 0 <= i < a.t.n && Dead(a.v, a.t.slots[i]) && b.t == RetiredAt(a.t, i)
       case TableWidens(more) => b.t == Widened(a.t, more)
       case SlotFills(pid, pgen, addr) =>
         && (a.t.free >= 0 ==> a.t.freeChain != []) && Chosen(a.t) < |a.t.slots|
         && Current(a.v, pid, pgen) && pgen >= 1 && OwnsAddr(a.v, pid, addr) && AddrFree(a.t, a.v, addr)
         && b.t == FilledAt(SlotTaken(a.t), Chosen(a.t), pid, pgen, addr)
  }

  /** Moments one after the other, and the steps between them. */
  datatype Run = Run(moments: seq<Moment>, steps: seq<Step>) {
    ghost function First(): Moment
      requires moments != []
    {
      moments[0]
    }

    ghost function Last(): Moment
      requires moments != []
    {
      moments[|moments| - 1]
    }

    /** One more step. */
    ghost function Then(s: Step, b: Moment): Run {
      Run(moments + [b], steps + [s])
    }

    /** Another run from where this one ends. */
    ghost function Joined(more: Run): Run
      requires more.moments != []
    {
      Run(moments + more.moments[1..], steps + more.steps)
    }
  }

  ghost predicate IsRun(run: Run) {
    && |run.moments| == |run.steps| + 1
    && forall i {:trigger run.steps[i]} | 0 <= i < |run.steps| ::
         Stepped(run.moments[i], run.moments[i + 1], run.steps[i])
  }

  /** One step keeps the table in order, the addresses of the handles issued, and what is stale stale. */
  lemma {:induction false} StepKeeps(a: Moment, b: Moment, s: Step)
    requires TableInv(a.t, a.v) && Stepped(a, b, s)
    ensures TableInv(b.t, b.v) && StaleStays(a.t, a.v, b.t, b.v)
    ensures !s.RegistryMoves? ==> SameStatus(a.t, a.v, b.t, b.v)
  {
    match s
    case RegistryMoves => RegistryStep(a.t, a.v, b.v);
    case SlotRetires(i) => RetireStep(a.t, a.v, i);
    case TableWidens(more) => MoreSlots(a.t, a.v, more);
    case SlotFills(pid, pgen, addr) =>
      TakeSlot(a.t, a.v);
      FillStep(SlotTaken(a.t), a.v, Chosen(a.t), pid, pgen, addr);
      SameStatusTrans(a.t, a.v, SlotTaken(a.t), a.v, b.t, b.v);
  }

  lemma {:induction false} TakeSlot(t: Table, v: View)
    requires TableInv(t, v) && Chosen(t) < |t.slots|
    ensures t.free >= 0 ==> t.freeChain != []
    ensures TableInv(SlotTaken(t), v) && SlotReady(SlotTaken(t), Chosen(t)) && SameStatus(t, v, SlotTaken(t), v)
    ensures forall addr: nat | AddrFree(t, v, addr) :: AddrFree(SlotTaken(t), v, addr)
  {
    if t.free >= 0 {
      PopSlot(t, v);
    } else {
      AddSlot(t, v);
    }
  }

  /** A run that starts in order stays in order. */
  lemma {:induction false} RunInOrder(run: Run, i: nat)
    requires IsRun(run) && TableInv(run.First().t, run.First().v) && i < |run.moments|
    ensures TableInv(run.moments[i].t, run.moments[i].v)
  {
    if i > 0 {
      RunInOrder(run, i - 1);
      StepKeeps(run.moments[i - 1], run.moments[i], run.steps[i - 1]);
    }
  }

  /** No handle's address ever changes and none that traps at the earlier moment resolves at the later. */
  ghost predicate StaleStaysFrom(a: Moment, b: Moment) {
    && |a.v.kind| == |a.v.pools| && |b.v.kind| == |b.v.pools|
    && 0 <= a.t.n <= |a.t.slots| && 0 <= b.t.n <= |b.t.slots|
    && StaleStays(a.t, a.v, b.t, b.v)
  }

  /** Over any run, once a handle has trapped it traps at every later moment; its address is never another. */
  lemma {:induction false} OnceStaleAlwaysStale(run: Run, i: nat, j: nat)
    requires IsRun(run) && TableInv(run.First().t, run.First().v) && i <= j < |run.moments|
    ensures StaleStaysFrom(run.moments[i], run.moments[j])
    decreases j
  {
    if i == j {
      RunInOrder(run, j);
      StaleStaysHere(run.moments[j]);
    } else {
      OnceStaleAlwaysStale(run, i, j - 1);
      StaleStaysNext(run, j - 1);
      StaleStaysTrans(run.moments[i], run.moments[j - 1], run.moments[j]);
    }
  }

  lemma {:induction false} StaleStaysHere(a: Moment)
    requires TableInv(a.t, a.v)
    ensures StaleStaysFrom(a, a)
  {
  }

  lemma {:induction false} StaleStaysNext(run: Run, i: nat)
    requires IsRun(run) && TableInv(run.First().t, run.First().v) && i < |run.steps|
    ensures StaleStaysFrom(run.moments[i], run.moments[i + 1])
  {
    var a, b, s := run.moments[i], run.moments[i + 1], run.steps[i];
    RunInOrder(run, i);
    assert Stepped(a, b, s);
    StepKeeps(a, b, s);
  }

  lemma {:induction false} StaleStaysTrans(a: Moment, b: Moment, c: Moment)
    requires StaleStaysFrom(a, b) && StaleStaysFrom(b, c)
    ensures StaleStaysFrom(a, c)
  {
  }

  /**
   Over any run, a handle that resolves leads to the address it was issued for, at every moment since,
   and its pool then owns a block there.
   */
  lemma {:induction false} ResolvesToItsBlock(run: Run, i: nat, j: nat, h: Handle)
    requires IsRun(run) && TableInv(run.First().t, run.First().v) && i <= j < |run.moments|
    requires h in run.moments[i].t.issued
    ensures var t, v := run.moments[j].t, run.moments[j].v;
            && TableInv(t, v)
            && (Resolve(t, v, h).Some? ==>
                  && Resolve(t, v, h) == Some(h.slot) && t.slots[h.slot].addr == run.moments[i].t.issued[h]
                  && OwnsAddr(v, h.pid, run.moments[i].t.issued[h]))
  {
    RunInOrder(run, j);
    OnceStaleAlwaysStale(run, i, j);
    if Resolve(run.moments[j].t, run.moments[j].v, h).Some? {
      GoodHandleIsOwned(run.moments[j].t, run.moments[j].v, h);
    }
  }

  /** Over any run, two different handles that resolve at a moment never lead to the same block. */
  lemma {:induction false} DifferentHandlesDifferentBlocks(run: Run, j: nat, h: Handle, o: Handle)
    requires IsRun(run) && TableInv(run.First().t, run.First().v) && j < |run.moments|
    requires h in run.moments[j].t.issued && o in run.moments[j].t.issued && h != o
    ensures var t, v := run.moments[j].t, run.moments[j].v;
            && TableInv(t, v)
            && (Resolve(t, v, h).Some? && Resolve(t, v, o).Some? ==>
                  h.slot != o.slot && t.slots[h.slot].addr != t.slots[o.slot].addr && t.issued[h] != t.issued[o])
  {
    RunInOrder(run, j);
    var t, v := run.moments[j].t, run.moments[j].v;
    if Resolve(t, v, h).Some? && Resolve(t, v, o).Some? {
      GoodHandleIsOwned(t, v, h);
      GoodHandleIsOwned(t, v, o);
      GoodHandlesApart(t, v, h, o);
    }
  }

  lemma {:induction false} RunExtends(run: Run, s: Step, b: Moment)
    requires IsRun(run) && Stepped(run.Last(), b, s)
    ensures IsRun(run.Then(s, b)) && run.Then(s, b).First() == run.First() && run.Then(s, b).Last() == b
  {
  }

  lemma {:induction false} RunsJoin(run: Run, more: Run)
    requires IsRun(run) && IsRun(more) && more.First() == run.Last()
    ensures IsRun(run.Joined(more)) && run.Joined(more).First() == run.First()
    ensures run.Joined(more).Last() == more.Last()
  {
    var all := run.Joined(more);
    forall i | 0 <= i < |all.steps| ensures Stepped(all.moments[i], all.moments[i + 1], all.steps[i]) {
      if i < |run.steps| {
        assert all.steps[i] == run.steps[i];
      } else {
        assert all.steps[i] == more.steps[i - |run.steps|];
      }
    }
  }
}
