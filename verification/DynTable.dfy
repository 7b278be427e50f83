/** The table behind `dyn` values: payloads are put into the current zone's object table. */
module DynTable {
  import opened Wrappers
  import opened PoolState
  import opened PoolBirth
  import opened DynState
  import R = PoolRegistry

  /**
   What `put` hands back.  `OutOfBounds` stands for an access past the end of the zone table,
   which in C is undefined.
   */
  datatype PutResult = Issued(h: Handle) | Trapped | OutOfBounds

  class DynTable {
    const reg: R.Registry
    var slots: seq<Slot>
    var n: int
    var free: int
    var liveN: int
    var poolOf: seq<int>
    ghost var freeChain: seq<int>
    ghost var issued: map<Handle, nat>

    ghost function State(): Table
      reads this`slots, this`n, this`free, this`liveN, this`freeChain, this`issued
    {
      Table(slots, n, free, liveN, freeChain, issued)
    }

    ghost function Now(): Moment
      reads this`slots, this`n, this`free, this`liveN, this`freeChain, this`issued, reg
    {
      Moment(State(), reg.View())
    }

    /** The table is in order with respect to the registry. */
    ghost predicate InOrder()
      reads this`slots, this`n, this`free, this`liveN, this`freeChain, this`issued, reg
    {
      TableInv(State(), reg.View())
    }

    ghost predicate Valid()
      reads this`slots, this`n, this`free, this`liveN, this`freeChain, this`issued, reg
    {
      reg.Valid() && InOrder() && Complete(State())
    }

    constructor (reg: R.Registry)
      requires reg.Valid()
      ensures Valid() && this.reg == reg && issued == map[] && poolOf == []
    {
      this.reg := reg;
      slots, n, free, liveN, poolOf := [], 0, -1, 0, [];
      freeChain, issued := [], map[];
      new;
      EmptyTable(State(), reg.View());
    }

    /** `extc_dyn_slot`: None is the trap. */
    method Lookup(h: Handle) returns (r: Option<int>)
      requires Valid()
      ensures r == Resolve(State(), reg.View(), h)
    {
      if h.slot < 0 || h.slot >= n {
        return None;
      }
      var s := slots[h.slot];
      if s.pid < 0 || s.pid != h.pid || s.gen != h.gen {
        return None;
      }
      assert SlotOk(reg.View(), s);
      if reg.Kind(h.pid) != 1 || reg.Generation(h.pid) != h.pgen {
        return None;
      }
      r := Some(h.slot);
    }

    /** The slot is pushed on the free chain. */
    method Retire(i: int)
      requires 0 <= i < |slots|
      modifies this`slots, this`free, this`liveN, this`freeChain
      ensures State() == RetiredAt(old(State()), i)
    {
      slots := slots[i := slots[i].(gen := slots[i].gen + 1, pid := -1, next := free)];
      free := i;
      liveN := liveN - 1;
      freeChain := [i] + freeChain;
    }

    /** The test and the body of the sweep's loop. */
    method SweepSlot(i: int, ghost t0: Table, ghost run: Run) returns (ghost more: Run)
      requires InOrder() && 0 <= i < n
      requires SweptTo(t0, reg.View(), State(), i, run)
      modifies this`slots, this`free, this`liveN, this`freeChain
      ensures SweptTo(t0, reg.View(), State(), i + 1, more) && n == old(n)
    {
      more := run;
      var s := slots[i];
      ghost var t, v := State(), reg.View();
      assert s.pid >= 0 ==> SlotOk(v, s);
      if s.pid >= 0 && (reg.Kind(s.pid) != 1 || reg.Generation(s.pid) != s.pgen) {
        Retire(i);
        more := run.Then(SlotRetires(i), Moment(State(), v));
        SweepRetires(t0, v, t, State(), i, run);
      } else {
        SweepPasses(t0, v, t, i, run);
      }
    }

    /**
     `extc_dynSweep`: every slot whose pool has moved on is retired and every other one is left alone;
     no handle notices.
     */
    method Sweep() returns (ghost run: Run)
      requires InOrder()
      modifies this`slots, this`free, this`liveN, this`freeChain
      ensures InOrder() && issued == old(issued) && n == old(n) && |slots| == |old(slots)|
      ensures old(Complete(State())) ==> Complete(State())
      ensures SweptSlots(reg.View(), old(slots), slots, n) && SweptFree(reg.View(), old(State()), State(), n)
      ensures SameStatus(old(State()), reg.View(), State(), reg.View())
      ensures IsRun(run) && run.First() == old(Now()) && run.Last() == Now()
    {
      ghost var t0, v := State(), reg.View();
      run := Run([Moment(t0, v)], []);
      for i := 0 to n
        invariant reg.View() == v && n == t0.n
        invariant SweptTo(t0, v, State(), i, run)
      {
        run := SweepSlot(i, t0, run);
      }
    }

    /** The zone's object table: the cached one if it still is a live table, otherwise a new one. */
    method ZonePool() returns (pid: int)
      requires Valid() && 0 <= reg.zoneTop < |poolOf|
      modifies this`poolOf, reg
      ensures Valid() && reg.zoneTop == old(reg.zoneTop)
      ensures Live(reg.View(), pid) && Current(reg.View(), pid, reg.pools[pid].generation)
      ensures Evolves(old(reg.View()), reg.View())
      ensures SameStatus(State(), old(reg.View()), State(), reg.View())
      ensures forall a: nat | AddrUnowned(old(reg.pools), a) :: AddrUnowned(reg.pools, a)
      ensures old(reg.Kind(poolOf[reg.zoneTop])) == 1 ==>
                pid == old(poolOf[reg.zoneTop]) && reg.View() == old(reg.View())
      ensures old(reg.Kind(poolOf[reg.zoneTop])) != 1 ==>
                reg.pools[pid].zone == reg.zoneTop && pid == old(reg.NextSlot())
      ensures poolOf == old(poolOf)[reg.zoneTop := pid] && LivePlus(old(reg.View()), reg.View(), pid)
      ensures forall p, g | Current(old(reg.View()), p, g) :: Current(reg.View(), p, g)
    {
      ghost var v := reg.View();
      var zi := reg.zoneTop;
      pid := poolOf[zi];
      if pid < 0 || reg.Kind(pid) != 1 || reg.Generation(pid) == 0 {
        LiveHasGeneration(v, pid);
        pid := NewZonePool();
        poolOf := poolOf[zi := pid];
      } else {
        SameEvolves(v, v);
        GentleStep(State(), v, v);
        assert poolOf == poolOf[zi := pid];
      }
    }

    method NewZonePool() returns (pid: int)
      requires Valid() && 0 <= reg.zoneTop
      modifies reg
      ensures Valid() && reg.zoneTop == old(reg.zoneTop)
      ensures 0 <= pid < |reg.pools| && reg.pools[pid].zone == reg.zoneTop && pid == old(reg.NextSlot())
      ensures LivePlus(old(reg.View()), reg.View(), pid)
      ensures forall p, g | Current(old(reg.View()), p, g) :: Current(reg.View(), p, g)
      ensures Current(reg.View(), pid, reg.pools[pid].generation)
      ensures Evolves(old(reg.View()), reg.View())
      ensures SameStatus(State(), old(reg.View()), State(), reg.View())
      ensures forall a: nat | AddrUnowned(old(reg.pools), a) :: AddrUnowned(reg.pools, a)
    {
      ghost var v := reg.View();
      ghost var made;
      pid, made := reg.NewTable(-1);
      NewTableIsGentle(v, made, pid, v.zoneTop);
      GentleStep(State(), v, reg.View());
    }

    /** Makes sure there is a slot to take: if there is none it sweeps, and if that frees none it enlarges the table. */
    method MakeRoom() returns (ghost run: Run)
      requires InOrder() && Complete(State())
      modifies this`slots, this`free, this`liveN, this`freeChain
      ensures InOrder() && Complete(State()) && issued == old(issued) && !Full(State())
      ensures RoomMade(reg.View(), old(State()), State())
      ensures SameStatus(old(State()), reg.View(), State(), reg.View())
      ensures IsRun(run) && run.First() == old(Now()) && run.Last() == Now()
    {
      ghost var t0, v := State(), reg.View();
      run := Run([Moment(t0, v)], []);
      if free < 0 && n >= |slots| {
        run := Sweep();
        SweptRoom(v, t0, State());
        if free < 0 && n >= |slots| {
          run := Enlarge(t0, run);
        }
      }
    }

    /** The table is enlarged: the sweep has found nothing. */
    method Enlarge(ghost t0: Table, ghost run: Run) returns (ghost more: Run)
      requires InOrder() && TableInv(t0, reg.View()) && Full(t0) && Complete(t0) && !SomeDead(reg.View(), t0)
      requires SameStatus(t0, reg.View(), State(), reg.View()) && Complete(State())
      requires Full(State()) && slots == t0.slots && n == t0.n
      requires IsRun(run) && run.First() == Moment(t0, reg.View()) && run.Last() == Now()
      modifies this`slots
      ensures InOrder() && Complete(State()) && !Full(State()) && RoomMade(reg.View(), t0, State())
      ensures SameStatus(t0, reg.View(), State(), reg.View())
      ensures IsRun(more) && more.First() == Moment(t0, reg.View()) && more.Last() == Now()
    {
      ghost var t, v, wider := State(), reg.View(), Wanted(|slots|) - |slots|;
      slots := Padded(slots, Wanted(|slots|) - |slots|, NeverUsed());
      assert State() == Widened(t, wider);
      WiderRoom(v, t0, t, wider);
      RoomIsMade(t0, v, t, wider, run);
      more := run.Then(TableWidens(wider), Moment(State(), v));
    }

    /** Takes a slot off the free chain, or the next one never used. */
    method NextSlot() returns (slot: int)
      requires InOrder() && !Full(State())
      modifies this`n, this`free, this`freeChain
      ensures old(free) >= 0 ==> old(freeChain) != [] && old(free) < |slots|
      ensures slot == Chosen(old(State())) && State() == SlotTaken(old(State()))
      ensures InOrder() && SlotReady(State(), slot)
      ensures SameStatus(old(State()), reg.View(), State(), reg.View())
    {
      TakeSlot(State(), reg.View());
      if free >= 0 {
        slot := free;
        free := slots[slot].next;
        freeChain := freeChain[1..];
      } else {
        slot := n;
        n := n + 1;
      }
    }

    /**
     `extc_dyn_put`: the payload is stored in the current zone's table and a handle issued for it;
     `addr` is where the allocator puts the block.  The new handle is good, and every handle issued
     before is as good or as stale as it was.  The block lands in the current zone exactly when the
     cached entry does not name a live table of another zone, as it can after that table's slot was
     used again.  All that happens are steps of a run.
     */
    method Put(size: int, addr: nat) returns (r: PutResult, ghost run: Run)
      requires Valid() && addr != 0 && AddrUnowned(reg.pools, addr)
      modifies this, reg
      ensures Valid()
      ensures r.Trapped? <==> old(reg.zoneTop) < 0
      ensures r.OutOfBounds? <==>
                old(reg.zoneTop) >= |old(poolOf)| && old(reg.zoneTop) >= Wanted(|old(poolOf)|)
      ensures SameStatus(old(State()), old(reg.View()), State(), reg.View())
      ensures r.Issued? ==>
                && r.h !in old(issued) && issued == old(issued)[r.h := addr]
                && Resolve(State(), reg.View(), r.h) == Some(r.h.slot)
      ensures r.Issued? && old(CachedTable(reg.zoneTop) >= 0) ==> r.h.pid == old(CachedTable(reg.zoneTop))
      ensures r.Issued? ==>
                (reg.pools[r.h.pid].zone == reg.zoneTop <==>
                 old(CachedTable(reg.zoneTop) < 0 || reg.pools[CachedTable(reg.zoneTop)].zone == reg.zoneTop))
      ensures r.Issued? ==>
                PoolsAfter(old(poolOf), poolOf, old(reg.View()), reg.View(), r.h.pid, PayloadBlock(addr, size))
      ensures r.Issued? ==> Chose(old(reg.View()), old(State()), |slots|, r.h.slot, r.h.gen)
      ensures r.Issued? && old(CachedTable(reg.zoneTop) < 0) ==> r.h.pid == old(reg.NextSlot())
      ensures !r.Issued? ==> reg.View() == old(reg.View()) && issued == old(issued)
      ensures IsRun(run) && run.First() == old(Now()) && run.Last() == Now()
    {
      var zi := reg.zoneTop;
      run := Run([Now()], []);
      if zi < 0 {
        return Trapped, run;
      }
      WidenZones(zi);
      if zi >= |poolOf| {
        return OutOfBounds, run;
      }
      var h;
      h, run := PutHere(size, addr);
      r := Issued(h);
    }

    /** The table of zones is enlarged, once, if it does not reach this far. */
    method WidenZones(zi: int)
      requires zi >= 0
      modifies this`poolOf
      ensures zi < |poolOf| <==> zi < |old(poolOf)| || zi < Wanted(|old(poolOf)|)
      ensures |old(poolOf)| <= |poolOf|
      ensures forall k | 0 <= k < |poolOf| :: poolOf[k] == if k < |old(poolOf)| then old(poolOf)[k] else -1
    {
      if zi >= |poolOf| {
        poolOf := Padded(poolOf, Wanted(|poolOf|) - |poolOf|, -1);
      }
    }

    /** `extc_dyn_put` in a zone that the table of zones reaches. */
    method PutHere(size: int, addr: nat) returns (h: Handle, ghost run: Run)
      requires Valid() && addr != 0 && AddrUnowned(reg.pools, addr) && 0 <= reg.zoneTop < |poolOf|
      modifies this, reg
      ensures Valid() && SameStatus(old(State()), old(reg.View()), State(), reg.View())
      ensures h !in old(issued) && issued == old(issued)[h := addr] && Resolve(State(), reg.View(), h) == Some(h.slot)
      ensures PoolsAfter(old(poolOf), poolOf, old(reg.View()), reg.View(), h.pid, PayloadBlock(addr, size))
      ensures Chose(old(reg.View()), old(State()), |slots|, h.slot, h.gen)
      ensures old(CachedTable(reg.zoneTop)) >= 0 ==> h.pid == old(CachedTable(reg.zoneTop))
      ensures old(CachedTable(reg.zoneTop)) < 0 ==>
                h.pid == old(reg.NextSlot()) && reg.pools[h.pid].zone == reg.zoneTop
      ensures IsRun(run) && run.First() == old(Now()) && run.Last() == Now()
    {
      ghost var a := Now();
      var pid := ZonePool();
      ghost var b := Now();
      h, run := PutIn(pid, size, addr);
      PoolsSettled(old(poolOf), poolOf, a.v, b.v, reg.View(), pid, PayloadBlock(addr, size));
      SameChoice(a.t, a.v, b.v, |slots|, h.slot, h.gen);
      SameStatusTrans(a.t, a.v, b.t, b.v, State(), reg.View());
      PutFrom(a, b, run);
      run := Run([a, b], [RegistryMoves]).Joined(run);
    }

    /** The second half of `extc_dyn_put`: a slot is found, the block taken and the slot filled. */
    method PutIn(pid: int, size: int, addr: nat) returns (h: Handle, ghost run: Run)
      requires Valid() && addr != 0 && AddrUnowned(reg.pools, addr)
      requires Live(reg.View(), pid) && Current(reg.View(), pid, reg.pools[pid].generation)
      modifies this`slots, this`n, this`free, this`liveN, this`freeChain, this`issued, reg
      ensures Valid() && reg.zoneTop == old(reg.zoneTop)
      ensures 0 <= pid < |reg.pools| && reg.pools[pid].zone == old(reg.pools[pid].zone)
      ensures Taken(old(reg.View()), reg.View(), pid, PayloadBlock(addr, size))
      ensures Chose(old(reg.View()), old(State()), |slots|, h.slot, h.gen)
      ensures SameStatus(old(State()), old(reg.View()), State(), reg.View())
      ensures h.pid == pid && h !in old(issued) && issued == old(issued)[h := addr]
      ensures Resolve(State(), reg.View(), h) == Some(h.slot)
      ensures IsRun(run) && run.First() == old(Now()) && run.Last() == Now()
    {
      ghost var t0, v := State(), reg.View();
      run := MakeRoom();
      ghost var t1 := State();
      RoomIsChosen(v, t0, t1);
      var slot := NextSlot();
      ghost var t2 := State();
      h := Fill(slot, pid, size, addr);
      ghost var pgen, w := reg.pools[pid].generation, reg.View();
      FilledRun(run, t1, v, w, State(), slot, pid, pgen, addr);
      run := run.Then(RegistryMoves, Moment(t1, w)).Then(SlotFills(pid, pgen, addr), Now());
      FilledCompletes(t1, v, w, State(), slot, pid, pgen, addr);
      SameStatusTrans(t0, v, t1, v, t2, v);
      SameStatusTrans(t0, v, t2, v, State(), w);
    }

    /** The cached table of a zone if the entry still names a live object table, otherwise -1. */
    function CachedTable(zi: int): int
      requires |reg.poolKind| == |reg.pools|
      reads this`poolOf, reg
    {
      if 0 <= zi < |poolOf| && reg.Kind(poolOf[zi]) == 1 then poolOf[zi] else -1
    }

    /** The block is taken and the slot filled. */
    method Fill(slot: int, pid: int, size: int, addr: nat) returns (h: Handle)
      requires reg.Valid() && InOrder() && SlotReady(State(), slot) && addr != 0 && AddrUnowned(reg.pools, addr)
      requires Live(reg.View(), pid) && Current(reg.View(), pid, reg.pools[pid].generation)
      modifies this`slots, this`liveN, this`issued, reg
      ensures reg.Valid() && InOrder() && reg.zoneTop == old(reg.zoneTop)
      ensures 0 <= pid < |reg.pools| && reg.pools[pid].zone == old(reg.pools[pid].zone)
      ensures Evolves(old(reg.View()), reg.View()) && reg.pools[pid].generation >= 1
      ensures Taken(old(reg.View()), reg.View(), pid, PayloadBlock(addr, size))
      ensures Current(reg.View(), pid, reg.pools[pid].generation) && OwnsAddr(reg.View(), pid, addr)
      ensures State() == FilledAt(old(State()), slot, pid, reg.pools[pid].generation, addr)
      ensures h == Handle(pid, slot, old(slots)[slot].gen, reg.pools[pid].generation) && h !in old(issued)
      ensures Resolve(State(), reg.View(), h) == Some(slot)
      ensures SameStatus(old(State()), old(reg.View()), State(), reg.View())
    {
      ghost var t, v := State(), reg.View();
      var pgen := reg.Generation(pid);
      assert PoolOk(v, pid);
      var ptr := reg.Take(pid, size, addr);
      ghost var w := reg.View();
      TakeThenFill(t, v, w, slot, pid, pgen, PayloadBlock(addr, size));
      BlockTaken(v, w, pid, PayloadBlock(addr, size));
      h := Handle(pid, slot, slots[slot].gen, pgen);
      Store(slot, pid, pgen, ptr);
    }

    /** The slot's fields are written. */
    method Store(slot: int, pid: int, pgen: int, addr: nat)
      requires 0 <= slot < |slots|
      modifies this`slots, this`liveN, this`issued
      ensures State() == FilledAt(old(State()), slot, pid, pgen, addr)
    {
      slots := slots[slot := slots[slot].(pid := pid, pgen := pgen, addr := addr)];
      liveN := liveN + 1;
      issued := issued[Handle(pid, slot, slots[slot].gen, pgen) := addr];
    }
  }

  // ---------------------------------------------------------------- lemmas for the methods

  /** The block of a payload. */
  function PayloadBlock(addr: nat, size: int): Block {
    Block(addr, if size <= 0 then 1 else size)
  }

  /** The free chain of `t` starts with the last dead one of the first `i` slots of `t0`, if there is any. */
  ghost predicate SweptFree(v: View, t0: Table, t: Table, i: int)
    requires |v.kind| == |v.pools| && 0 <= i <= |t0.slots|
  {
    || (t.free == t0.free && forall k | 0 <= k < i :: !Dead(v, t0.slots[k]))
    || LastDead(v, t0.slots, i, t.free)
  }

  /** What a sweep means for room. */
  lemma {:induction false} SweptRoom(v: View, t0: Table, t: Table)
    requires TableInv(t0, v) && TableInv(t, v) && Full(t0) && t.n == t0.n && |t.slots| == |t0.slots|
    requires SweptSlots(v, t0.slots, t.slots, t0.n) && SweptFree(v, t0, t, t0.n)
    ensures SomeDead(v, t0) ==> !Full(t) && RoomMade(v, t0, t)
    ensures !SomeDead(v, t0) ==> Full(t) && t.slots == t0.slots
  {
    if SomeDead(v, t0) {
      assert LastDead(v, t0.slots, t0.n, t.free);
      assert t.slots[t.free] == Retired(t0.slots[t.free], t.slots[t.free].next);
    } else {
      assert forall k | 0 <= k < |t.slots| :: t.slots[k] == t0.slots[k];
    }
  }

  lemma {:induction false} WiderRoom(v: View, t0: Table, t: Table, more: nat)
    requires TableInv(t0, v) && Complete(t0) && Full(t0) && !SomeDead(v, t0)
    requires TableInv(t, v) && Complete(t) && Full(t) && t.slots == t0.slots && t.n == t0.n
    requires more == Wanted(|t.slots|) - |t.slots|
    ensures var u := Widened(t, more); RoomMade(v, t0, u) && !Full(u) && u.n <= |u.slots| && Complete(u)
  {
    FullAndLive(v, t0);
  }

  /** Of the first `i` slots the dead ones have been retired; all others are as they were. */
  ghost predicate SweptSlots(v: View, before: seq<Slot>, after: seq<Slot>, i: int)
    requires |v.kind| == |v.pools|
  {
    && |after| == |before|
    && forall k {:trigger after[k]} {:trigger before[k]} | 0 <= k < |after| ::
         after[k] == if k < i && Dead(v, before[k]) then Retired(before[k], after[k].next) else before[k]
  }

  lemma {:induction false} SlotPasses(v: View, before: seq<Slot>, after: seq<Slot>, i: int)
    requires |v.kind| == |v.pools| && SweptSlots(v, before, after, i)
    requires 0 <= i < |after| && !Dead(v, after[i])
    ensures SweptSlots(v, before, after, i + 1)
  {
    assert after[i] == before[i];
  }

  lemma {:induction false} SlotGoes(v: View, before: seq<Slot>, after: seq<Slot>, i: int, free: int)
    requires |v.kind| == |v.pools| && SweptSlots(v, before, after, i)
    requires 0 <= i < |after| && Dead(v, after[i])
    ensures SweptSlots(v, before, after[i := Retired(after[i], free)], i + 1)
  {
    assert after[i] == before[i];
  }

  /** The first `i` slots have been swept: the dead ones retired, all others as in `t0`, and all of it a run. */
  ghost predicate SweptTo(t0: Table, v: View, t: Table, i: int, run: Run)
    requires |v.kind| == |v.pools|
  {
    && TableInv(t0, v) && TableInv(t, v) && t.issued == t0.issued && t.n == t0.n && |t.slots| == |t0.slots|
    && 0 <= i <= t0.n && SweptSlots(v, t0.slots, t.slots, i) && SweptFree(v, t0, t, i)
    && SameStatus(t0, v, t, v) && (Complete(t0) ==> Complete(t))
    && IsRun(run) && run.First() == Moment(t0, v) && run.Last() == Moment(t, v)
  }

  lemma {:induction false} SweepRetires(t0: Table, v: View, t: Table, u: Table, i: int, run: Run)
    requires |v.kind| == |v.pools| && SweptTo(t0, v, t, i, run)
    requires 0 <= i < t.n && Dead(v, t.slots[i]) && u == RetiredAt(t, i)
    ensures SweptTo(t0, v, u, i + 1, run.Then(SlotRetires(i), Moment(u, v)))
  {
    SlotGoes(v, t0.slots, t.slots, i, t.free);
    RetireStep(t, v, i);
    if Complete(t) {
      RetireCompletes(t, i);
    }
    assert t.slots[i] == t0.slots[i];
    SameStatusTrans(t0, v, t, v, u, v);
    RunExtends(run, SlotRetires(i), Moment(u, v));
  }

  lemma {:induction false} SweepPasses(t0: Table, v: View, t: Table, i: int, run: Run)
    requires |v.kind| == |v.pools| && SweptTo(t0, v, t, i, run)
    requires 0 <= i < t.n && !Dead(v, t.slots[i])
    ensures SweptTo(t0, v, t, i + 1, run)
  {
    SlotPasses(v, t0.slots, t.slots, i);
    assert t.slots[i] == t0.slots[i];
  }

  lemma {:induction false} RoomIsMade(t0: Table, v: View, t: Table, more: nat, run: Run)
    requires TableInv(t0, v) && TableInv(t, v) && SameStatus(t0, v, t, v)
    requires IsRun(run) && run.First() == Moment(t0, v) && run.Last() == Moment(t, v)
    ensures var u := Widened(t, more);
            && TableInv(u, v) && SameStatus(t0, v, u, v)
            && var last := run.Then(TableWidens(more), Moment(u, v));
               IsRun(last) && last.First() == Moment(t0, v) && last.Last() == Moment(u, v)
  {
    MoreSlots(t, v, more);
    SameStatusTrans(t0, v, t, v, Widened(t, more), v);
    RunExtends(run, TableWidens(more), Moment(Widened(t, more), v));
  }

  /** Taking the block and filling the slot, seen from the handles. */
  lemma {:induction false} TakeThenFill(t: Table, v: View, w: View, slot: int, pid: int, pgen: int, b: Block)
    requires TableInv(t, v) && SlotReady(t, slot) && |w.kind| == |w.pools| && Evolves(v, w)
    requires Live(v, pid) && Current(v, pid, pgen) && pgen >= 1
    requires w == WithBlocks(v, pid, [b] + v.pools[pid].blocks) && AddrUnowned(v.pools, b.addr)
    ensures AddrFree(t, w, b.addr)
    ensures Current(w, pid, pgen) && w.pools[pid].generation == pgen && OwnsAddr(w, pid, b.addr)
    ensures var u, h := FilledAt(t, slot, pid, pgen, b.addr), Handle(pid, slot, t.slots[slot].gen, pgen);
            && TableInv(u, w) && h !in t.issued && Resolve(u, w, h) == Some(slot)
            && SameStatus(t, v, u, w)
  {
    TakeIsGentle(v, w, pid, b);
    GentleStep(t, v, w);
    UnownedIsFree(t, v, w, b.addr);
    FillStep(t, w, slot, pid, pgen, b.addr);
    SameStatusTrans(t, v, t, w, FilledAt(t, slot, pid, pgen, b.addr), w);
  }

  /** What no pool owned no slot in use had. */
  lemma {:induction false} UnownedIsFree(t: Table, v: View, w: View, addr: nat)
    requires TableInv(t, v) && |w.kind| == |w.pools| && Evolves(v, w) && AddrUnowned(v.pools, addr)
    ensures AddrFree(t, w, addr)
  {
    forall i | 0 <= i < t.n && InUse(w, t.slots[i]) ensures t.slots[i].addr != addr {
      assert SlotOk(v, t.slots[i]);
      SlotStays(v, w, t.slots[i]);
    }
  }

  /** Pool `pid` is alive as well now; the others live and die as before, in their zones. */
  ghost predicate LivePlus(v: View, w: View, pid: int) {
    && (forall p :: Live(w, p) <==> Live(v, p) || p == pid)
    && forall p | Live(v, p) :: Live(w, p) && w.pools[p].zone == v.pools[p].zone
  }

  /** Pool `pid` took the block `b`. */
  ghost predicate Taken(v: View, w: View, pid: int, b: Block) {
    && w.zoneTop == v.zoneTop && LivePlus(v, w, pid) && 0 <= pid < |w.pools| && b in w.pools[pid].blocks
    && forall a: nat | AddrUnowned(v.pools, a) && a != b.addr :: AddrUnowned(w.pools, a)
  }

  /** What a `put` leaves of the pools and of the table of zones, for a value in pool `pid`. */
  ghost predicate PoolsAfter(before: seq<int>, after: seq<int>, v: View, w: View, pid: int, b: Block) {
    && Taken(v, w, pid, b) && 0 <= v.zoneTop < |after| && |before| <= |after|
    && forall k | 0 <= k < |after| ::
         after[k] == if k == v.zoneTop then pid else if k < |before| then before[k] else -1
  }

  lemma {:induction false} BlockTaken(v: View, w: View, pid: int, b: Block)
    requires Live(v, pid) && w == WithBlocks(v, pid, [b] + v.pools[pid].blocks)
    ensures Taken(v, w, pid, b)
  {
    assert w.pools[pid].blocks[0] == b;
    TakenElsewhere(v, w, pid, b);
  }

  lemma {:induction false} PoolsSettled(before: seq<int>, after: seq<int>, v: View, u: View, w: View, pid: int,
          b: Block)
    requires LivePlus(v, u, pid) && Taken(u, w, pid, b) && u.zoneTop == v.zoneTop
    requires forall a: nat | AddrUnowned(v.pools, a) :: AddrUnowned(u.pools, a)
    requires 0 <= v.zoneTop < |after| && |before| <= |after|
    requires forall k | 0 <= k < |after| ::
               after[k] == if k == v.zoneTop then pid else if k < |before| then before[k] else -1
    ensures PoolsAfter(before, after, v, w, pid, b)
  {
  }

  /** As steps of a run: the registry takes the block, then the slot is taken and filled. */
  lemma {:induction false} FilledRun(run: Run, t: Table, v: View, w: View, u: Table, slot: int, pid: int, pgen: int,
          addr: nat)
    requires IsRun(run) && run.Last() == Moment(t, v) && TableInv(t, v)
    requires |w.kind| == |w.pools| && Evolves(v, w)
    requires (t.free >= 0 ==> t.freeChain != []) && slot == Chosen(t) < |t.slots|
    requires Current(w, pid, pgen) && pgen >= 1 && OwnsAddr(w, pid, addr) && AddrUnowned(v.pools, addr)
    requires u == FilledAt(SlotTaken(t), slot, pid, pgen, addr)
    ensures var last := run.Then(RegistryMoves, Moment(t, w)).Then(SlotFills(pid, pgen, addr), Moment(u, w));
            IsRun(last) && last.First() == run.First() && last.Last() == Moment(u, w)
  {
    var more := run.Then(RegistryMoves, Moment(t, w));
    UnownedIsFree(t, v, w, addr);
    RunExtends(run, RegistryMoves, Moment(t, w));
    RunExtends(more, SlotFills(pid, pgen, addr), Moment(u, w));
  }

  lemma {:induction false} FilledCompletes(t: Table, v: View, w: View, u: Table, slot: int, pid: int, pgen: int,
          addr: nat)
    requires TableInv(t, v) && TableInv(u, w) && Complete(t) && slot == Chosen(t) < |t.slots| && pid >= 0
    requires t.free >= 0 ==> t.freeChain != []
    requires u == FilledAt(SlotTaken(t), slot, pid, pgen, addr)
    ensures Complete(u)
  {
    if t.free >= 0 {
      FreeHead(t);
      assert t.freeChain == [t.free] + t.freeChain[1..];
    }
  }

  /** A move of the registry before a run. */
  lemma {:induction false} PutFrom(a: Moment, b: Moment, run: Run)
    requires |a.v.kind| == |a.v.pools| && |b.v.kind| == |b.v.pools| && 0 <= a.t.n <= |a.t.slots|
    requires b.t == a.t && Evolves(a.v, b.v) && IsRun(run) && run.First() == b
    ensures var all := Run([a, b], [RegistryMoves]).Joined(run);
            IsRun(all) && all.First() == a && all.Last() == run.Last()
  {
    assert Stepped(a, b, RegistryMoves);
    RunsJoin(Run([a, b], [RegistryMoves]), run);
  }

  lemma {:induction false} TakeIsGentle(v: View, w: View, pid: int, b: Block)
    requires |v.kind| == |v.pools| && Live(v, pid) && w == WithBlocks(v, pid, [b] + v.pools[pid].blocks)
    ensures forall p, g | Current(v, p, g) :: Current(w, p, g)
    ensures OwnsAddr(w, pid, b.addr)
  {
    assert w.pools[pid].blocks[0] == b;
    assert b in w.pools[pid].blocks;
  }

  lemma {:induction false} EmptyTable(t: Table, v: View)
    requires Inv(v) && t == Table([], 0, -1, 0, [], map[])
    ensures TableInv(t, v) && Complete(t)
  {
    assert Filled(t) == {};
  }

  lemma {:induction false} LiveHasGeneration(v: View, pid: int)
    requires Inv(v)
    ensures Live(v, pid) ==> v.pools[pid].generation >= 1
  {
    assert Live(v, pid) ==> PoolOk(v, pid);
  }

  lemma {:induction false} NewTableIsGentle(v: View, made: View, pid: int, zi: int)
    requires Inv(v) && Inv(made) && Created(v, made, pid, -1, zi)
    ensures var w := R.TableMarked(made, pid);
            && Live(w, pid) && w.pools[pid].generation >= 1 && w.pools[pid].zone == zi
            && (forall p, g | Current(v, p, g) :: Current(w, p, g)) && LivePlus(v, w, pid)
            && forall a: nat | AddrUnowned(v.pools, a) :: AddrUnowned(w.pools, a)
  {
    forall a: nat | AddrUnowned(v.pools, a) ensures AddrUnowned(made.pools, a) {
      CreatedOwnsNothing(v, made, pid, -1, zi, a);
    }
    var w := R.TableMarked(made, pid);
    forall p, g | Current(v, p, g) ensures Current(w, p, g) {
      assert w.kind[p] == if p == pid then 1 else v.kind[p];
    }
  }

  // ---------------------------------------------------------------- too many zones

  /**
   The table of zones is enlarged once per call, to 64 entries the first time: the first `put` made 65
   zones deep goes past its end.
   */
  method TooDeepForFirstPut(stale: Zone, size: int, addr: nat) returns (table: DynTable, r: PutResult)
    requires addr != 0
    ensures table.Valid() && table.reg.zoneTop == 64 && r == OutOfBounds
  {
    var reg := new R.Registry();
    for i := 0 to 65
      invariant reg.Valid() && reg.zoneTop == i - 1 && reg.pools == [] && fresh(reg)
    {
      var z := reg.ZoneEnter(stale);
    }
    table := new DynTable(reg);
    ghost var run;
    r, run := table.Put(size, addr);
  }

  // ---------------------------------------------------------------- a cached table of another zone

  /** A new registry, two zones deep, and a new table. */
  method TwoZones(stale: Zone) returns (table: DynTable)
    ensures fresh(table) && fresh(table.reg) && table.Valid() && table.reg.zoneTop == 1
    ensures table.reg.pools == [] && table.poolOf == []
  {
    var reg := new R.Registry();
    var z0 := reg.ZoneEnter(stale);
    var z1 := reg.ZoneEnter(stale);
    table := new DynTable(reg);
  }

  /** A value is put two zones deep. */
  method PutTwoDeep(stale: Zone, size: int, addr: nat) returns (table: DynTable, slot: int)
    requires addr != 0
    ensures fresh(table) && fresh(table.reg) && table.Valid() && table.reg.zoneTop == 1
    ensures Live(table.reg.View(), slot) && table.reg.pools[slot].zone == 1
    ensures forall p | Live(table.reg.View(), p) :: p == slot
    ensures |table.poolOf| >= 2 && table.poolOf[0] == -1 && table.poolOf[1] == slot
  {
    table := TwoZones(stale);
    var r;
    ghost var run;
    r, run := table.Put(size, addr);
    slot := r.h.pid;
  }

  /** The inner zone is left: its table's slot is free again. */
  method LeaveInner(table: DynTable, slot: int)
    requires table.Valid() && table.reg.zoneTop == 1
    requires Live(table.reg.View(), slot) && table.reg.pools[slot].zone == 1
    requires forall p | Live(table.reg.View(), p) :: p == slot
    modifies table.reg
    ensures table.Valid() && table.reg.zoneTop == 0 && table.reg.NextSlot() == slot
    ensures R.AllUnowned(table.reg.pools)
  {
    ghost var t, v := table.State(), table.reg.View();
    table.reg.ZoneLeaveTo(1);
    OnlyOneDoomed(v, table.reg.View(), slot);
    RegistryStep(t, v, table.reg.View());
  }

  /** And entered again. */
  method EnterInner(table: DynTable, stale: Zone)
    requires table.Valid() && table.reg.zoneTop == 0
    modifies table.reg
    ensures table.Valid() && table.reg.zoneTop == 1
    ensures table.reg.pools == old(table.reg.pools) && table.reg.poolKind == old(table.reg.poolKind)
  {
    ghost var t, v := table.State(), table.reg.View();
    var z := table.reg.ZoneEnter(stale);
    RegistryStep(t, v, table.reg.View());
  }

  lemma {:induction false} OnlyOneDoomed(v: View, w: View, x: int)
    requires Inv(v) && Inv(w) && Live(v, x) && v.pools[x].zone == 1 && (forall p | Live(v, p) :: p == x)
    requires Killed(v, w, R.DoomedSet(v, 1))
    ensures w.freeHead == x && R.AllUnowned(w.pools) && forall p :: !Live(w, p)
  {
    assert Under(v.pools, v.shape.birth, x, x);
    assert R.Doomed(v, 1, x);
    assert R.DoomedSet(v, 1) == {x};
    R.OnlyPoolKilled(v, w, x);
  }

  /** The outer zone's table takes the slot; the inner zone's entry still names it. */
  method PutInOuter(table: DynTable, slot: int, size: int, addr: nat)
    requires table.Valid() && table.reg.zoneTop == 0 && table.reg.NextSlot() == slot
    requires R.AllUnowned(table.reg.pools) && addr != 0
    requires |table.poolOf| >= 2 && table.poolOf[0] == -1 && table.poolOf[1] == slot
    modifies table, table.reg
    ensures table.Valid() && table.reg.zoneTop == 0 && table.CachedTable(1) == slot && slot >= 0
    ensures Live(table.reg.View(), slot) && table.reg.pools[slot].zone == 0 && |table.poolOf| >= 2
    ensures forall a: nat | a != addr :: AddrUnowned(table.reg.pools, a)
  {
    var r;
    ghost var run;
    ghost var before := table.reg.pools;
    assert forall a: nat :: AddrUnowned(before, a);
    r, run := table.Put(size, addr);
  }

  /**
   A run in which a value lands in a zone it was not put in: zone 0 gets the slot that zone 1's table
   had, and when zone 1 is entered again its entry in the table of zones still names that slot.
   */
  method CachedTableOfAnotherZone(stale: Zone, size: int, a: nat, b: nat, c: nat)
    returns (table: DynTable, r: PutResult)
    requires a != 0 && b != 0 && c != 0 && b != c
    ensures table.Valid() && table.reg.zoneTop == 1
    ensures r.Issued? && Resolve(table.State(), table.reg.View(), r.h) == Some(r.h.slot)
    ensures Live(table.reg.View(), r.h.pid) && table.reg.pools[r.h.pid].zone == 0
  {
    var slot;
    table, slot := PutTwoDeep(stale, size, a);
    LeaveInner(table, slot);
    PutInOuter(table, slot, size, b);
    EnterInner(table, stale);
    ghost var run;
    r, run := table.Put(size, c);
  }
}
