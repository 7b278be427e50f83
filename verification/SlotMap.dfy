/**
 The slot map of the emitted runtime, over its packed words, in three blocks that a pool of the registry
 owns.
 */
module SlotMap {
  import opened Wrappers
  import opened SlotMapState
  import P = PoolState
  import B = PoolBirth
  import R = PoolRegistry
  import L = PoolLife


  /** Where the three blocks are. */
  datatype Places = Places(vals: nat, slots: nat, ent: nat) {
    /** The blocks there that hold `c` cells each. */
    function Vals(c: int): P.Block {
      P.Block(vals, c * VAL_BYTES)
    }

    function Slots(c: int): P.Block {
      P.Block(slots, c * SLOT_BYTES)
    }

    function Ent(c: int): P.Block {
      P.Block(ent, c * ENT_BYTES)
    }

    ghost function All(c: int): set<P.Block> {
      {Vals(c), Slots(c), Ent(c)}
    }

    predicate Distinct() {
      vals != 0 && slots != 0 && ent != 0 && vals != slots && vals != ent && slots != ent
    }
  }

  const VAL_BYTES := 32
  const SLOT_BYTES := 4
  const ENT_BYTES := 8

  // ---------------------------------------------------------------- the blocks and their pool

  /** The allocator puts new blocks where nobody has one. */
  ghost predicate AllNew(pools: seq<P.Pool>, at: Places) {
    at.Distinct() && B.AddrUnowned(pools, at.vals) && B.AddrUnowned(pools, at.slots) && B.AddrUnowned(pools, at.ent)
  }

  /** When blocks are moved one after the other, it may use what an earlier one has left. */
  ghost predicate CanMove(pools: seq<P.Pool>, from: Places, to: Places) {
    && to.Distinct()
    && (B.AddrUnowned(pools, to.vals) || to.vals == from.vals)
    && (B.AddrUnowned(pools, to.slots) || to.slots in {from.vals, from.slots})
    && (B.AddrUnowned(pools, to.ent) || to.ent in {from.vals, from.slots, from.ent})
  }

  /** `withParent` up to the map itself: the pool, and in it the blocks; with no pool there is no block. */
  method NewBlocks(reg: R.Registry, parent: int, zi: int, c: int, at: Places)
    returns (rp: int, rpg: nat, got: Places, ghost born: nat)
    requires reg.Valid() && (parent < 0 || P.Live(reg.View(), parent)) && AllNew(reg.pools, at) && c > 0
    modifies reg
    ensures reg.Valid() && reg.zoneTop == old(reg.zoneTop)
    ensures rp == if 0 <= zi <= reg.zoneTop then old(reg.NextSlot()) else -1
    ensures rp < 0 ==> rpg == 0 && got == Places(0, 0, 0) && reg.View() == old(reg.View())
    ensures 0 <= zi <= reg.zoneTop ==>
              && got == at && L.Tied(reg.View(), rp, rpg, born, at.All(c)) && L.Lives(reg.View(), rp, born)
              && reg.pools[rp].generation == rpg && reg.pools[rp].zone == zi
              && (reg.poolKind[rp] == 0 <==> rp !in old(reg.shape.tables))
  {
    ghost var v := reg.View();
    rp := reg.NewAt(parent, zi);
    rpg := reg.Generation(rp);
    born := 0;
    ghost var u := reg.View();
    if rp >= 0 {
      born := u.shape.birth[rp];
      L.CreatedTied(v, u, rp, parent, zi);
      UnownedStay(v, u, rp, parent, zi, at);
    }
    got := TakeBlocks(reg, rp, c, at, rpg, born);
  }

  lemma {:induction false} UnownedStay(v: P.View, u: P.View, rp: int, parent: int, zi: int, at: Places)
    requires P.Sizes(v) && P.Inv(u) && B.Created(v, u, rp, parent, zi) && AllNew(v.pools, at)
    ensures AllNew(u.pools, at) && (u.kind[rp] == 0 <==> rp !in v.shape.tables)
  {
    B.CreatedOwnsNothing(v, u, rp, parent, zi, at.vals);
    B.CreatedOwnsNothing(v, u, rp, parent, zi, at.slots);
    B.CreatedOwnsNothing(v, u, rp, parent, zi, at.ent);
  }

  /** The three calls of `extc_pool_take_raw`. */
  method TakeBlocks(reg: R.Registry, rp: int, c: int, at: Places, ghost gen: nat, ghost born: nat)
    returns (got: Places)
    requires reg.Valid() && AllNew(reg.pools, at) && c > 0
    requires rp < 0 || (L.Tied(reg.View(), rp, gen, born, {}) && L.Lives(reg.View(), rp, born))
    modifies reg
    ensures reg.Valid() && reg.zoneTop == old(reg.zoneTop) && reg.poolKind == old(reg.poolKind)
    ensures rp < 0 ==> got == Places(0, 0, 0) && reg.View() == old(reg.View())
    ensures rp >= 0 ==> got == at && L.Tied(reg.View(), rp, gen, born, at.All(c)) && L.Lives(reg.View(), rp, born)
    ensures rp >= 0 ==>
              && rp < |old(reg.pools)| && reg.pools[rp].generation == old(reg.pools)[rp].generation
              && reg.pools[rp].zone == old(reg.pools)[rp].zone
  {
    var x, y, z;
    x := TakeBlock(reg, rp, c * VAL_BYTES, at.vals, gen, born, {});
    assert {} + {at.Vals(c)} == {at.Vals(c)} && {at.Vals(c)} + {at.Slots(c)} == {at.Vals(c), at.Slots(c)};
    y := TakeBlock(reg, rp, c * SLOT_BYTES, at.slots, gen, born, {at.Vals(c)});
    z := TakeBlock(reg, rp, c * ENT_BYTES, at.ent, gen, born, {at.Vals(c), at.Slots(c)});
    got := Places(x, y, z);
    assert {at.Vals(c), at.Slots(c)} + {at.Ent(c)} == at.All(c);
  }

  method TakeBlock(reg: R.Registry, rp: int, bytes: int, addr: nat, ghost gen: nat, ghost born: nat,
                   ghost a: set<P.Block>)
    returns (ptr: nat)
    requires reg.Valid() && addr != 0 && bytes > 0 && B.AddrUnowned(reg.pools, addr)
    requires rp < 0 || (L.Tied(reg.View(), rp, gen, born, a) && L.Lives(reg.View(), rp, born))
    modifies reg
    ensures reg.Valid() && reg.zoneTop == old(reg.zoneTop) && reg.poolKind == old(reg.poolKind)
    ensures rp < 0 ==> ptr == 0 && reg.View() == old(reg.View())
    ensures rp >= 0 ==>
              && ptr == addr && L.Tied(reg.View(), rp, gen, born, a + {P.Block(addr, bytes)})
              && L.Lives(reg.View(), rp, born)
    ensures rp >= 0 ==>
              && rp < |old(reg.pools)| && reg.pools[rp].generation == old(reg.pools)[rp].generation
              && reg.pools[rp].zone == old(reg.pools)[rp].zone
    ensures forall y: nat | B.AddrUnowned(old(reg.pools), y) && y != addr :: B.AddrUnowned(reg.pools, y)
  {
    ghost var v := reg.View();
    ptr := reg.Take(rp, bytes, addr);
    if rp >= 0 {
      L.TakenTied(v, reg.View(), rp, gen, born, a, P.Block(addr, bytes));
    }
  }

  /** `extc_pool_resize` for a block the pool owns: refused exactly by an object table. */
  method MoveBlock(reg: R.Registry, pid: int, ghost from: P.Block, p: nat, bytes: int, to: nat) returns (ok: bool)
    requires reg.Valid() && P.Live(reg.View(), pid) && L.Owns(reg.View(), pid, from) && from.addr == p != 0
    requires bytes > 0 && to != 0 && (to == p || B.AddrUnowned(reg.pools, to))
    modifies reg
    ensures reg.Valid() && (ok <==> old(reg.poolKind)[pid] == 0)
    ensures !ok ==> reg.View() == old(reg.View())
    ensures ok ==> L.BlockMoved(old(reg.View()), reg.View(), pid, from, P.Block(to, bytes))
  {
    ghost var v := reg.View();
    var blocks := reg.pools[pid].blocks;
    var r := reg.Resize(pid, p, bytes, to);
    ok := r.Done?;
    if ok {
      ghost var i :| 0 <= i < |blocks| && blocks[i].addr == p
                     && reg.View() == B.WithBlocks(v, pid, blocks[i := P.Block(to, bytes)]);
      L.ResizedIsMoved(v, reg.View(), pid, i, from, P.Block(to, bytes));
    }
  }

  class SlotMap<V> {
    var vals: seq<V>
    var slots: seq<int>
    var ent: seq<int>
    var pid: int
    var pidGen: nat
    var epoch: int
    var cursor: int
    var holeHead: int
    var n: int
    var cap: int
    const zero: V
    const reg: R.Registry
    var at: Places
    ghost var born: nat
    ghost var holes: seq<int>
    ghost var vacated: seq<nat>
    ghost var base: seq<int>
    ghost var log: map<Ticket, V>

    ghost function State(): Map<V>
      reads this`vals, this`slots, this`ent, this`cap, this`n, this`cursor, this`holeHead, this`holes, this`vacated,
            this`base, this`log
    {
      Map(vals, slots, UnpackAll(ent), cap, n, cursor, holeHead, holes, vacated, base, log)
    }

    /**
     In order, or poisoned: a map whose pool went away has no cells left.  A map that never got a pool
     counts cells it does not have, and none has been used.
     */
    ghost predicate Valid()
      reads this
    {
      && (forall i | 0 <= i < |ent| :: Word(ent[i]))
      && if pid >= 0 || cap > 0 then MapInv(State()) && (pid < 0 ==> cursor == 0)
         else cap == n == 0 && |vals| == |slots| == |ent| == 0
    }

    /**
     The map's blocks are in the pool it was given, for as long as that pool lives, and each has room for
     as many cells as the capacity says.
     */
    ghost predicate Bound()
      reads this`pid, this`pidGen, this`born, this`at, this`cap, reg
    {
      reg.Valid() && (pid >= 0 ==> cap > 0 && at.Distinct() && L.Tied(reg.View(), pid, pidGen, born, at.All(cap)))
    }

    /** The pool the map was given is alive, with the map's blocks. */
    ghost predicate Readable()
      reads this`pid, this`born, reg
    {
      L.Lives(reg.View(), pid, born)
    }

    /** If that pool is alive it owns the three blocks, with room for all cells. */
    ghost predicate Intact()
      reads this`pid, this`born, this`at, this`cap, reg
    {
      Readable() ==> Mine(at.Vals(cap)) && Mine(at.Slots(cap)) && Mine(at.Ent(cap))
    }

    lemma {:induction false} BoundIsIntact()
      requires Bound()
      ensures Intact()
      ensures pid >= 0 && reg.Generation(pid) == pidGen ==> Readable()
    {
    }

    /** This block is the map's: the pool it was given is alive and owns it. */
    ghost predicate Mine(b: P.Block)
      reads this`pid, this`born, reg
    {
      L.Lives(reg.View(), pid, born) && L.Owns(reg.View(), pid, b)
    }

    /** `withParent`, in the place `zi`: cells are whatever memory held. */
    constructor (reg: R.Registry, parent: int, zi: int, size: int, places: Places, vals0: seq<V>, slots0: seq<int>,
                 ent0: seq<int>, zero: V)
      requires reg.Valid() && (parent < 0 || P.Live(reg.View(), parent)) && AllNew(reg.pools, places)
      requires size < 0x8000_0000 && |vals0| == |slots0| == |ent0| == if size < 8 then 8 else size
      requires forall i | 0 <= i < |ent0| :: Word(ent0[i])
      modifies reg
      ensures this.reg == reg && Valid() && Bound() && log == map[] && n == 0 && reg.zoneTop == old(reg.zoneTop)
      ensures Contents(State(), epoch) == map[] && cap == |ent0| && cursor == 0 && holeHead < 0
      ensures pid == if 0 <= zi <= reg.zoneTop then old(reg.NextSlot()) else -1
      ensures pid < 0 ==> reg.View() == old(reg.View())
      ensures 0 <= zi <= reg.zoneTop ==>
                && Readable() && pidGen == reg.Generation(pid) && reg.pools[pid].zone == zi
                && (reg.poolKind[pid] == 0 <==> pid !in old(reg.shape.tables))
    {
      var c := if size < 8 then 8 else size;
      var rp, rpg, got;
      ghost var life;
      rp, rpg, got, life := NewBlocks(reg, parent, zi, c, places);
      this.reg, at, born := reg, got, life;
      vals, slots, ent, pid, pidGen := vals0, slots0, ent0, rp, rpg;
      epoch, cursor, holeHead, n, cap := 0, 0, -1, 0, if size < 8 then 8 else size;
      this.zero := zero;
      holes, log := [], map[];
      vacated := seq(if size < 8 then 8 else size, _ => 0);
      base := seq(|ent0|, i requires 0 <= i < |ent0| => PGen(ent0[i]));
      new;
      forall i | 0 <= i < cap ensures EntryOk(State().ent[i]) && Wrap32(base[i]) == base[i] {
        UnpackPack(ent[i]);
      }
    }

    /** Does looking a handle up go to the table of words at all. */
    predicate Touches(h: Handle)
      reads this`epoch, this`cap
    {
      PEp(h.ep) == PEp(epoch) && 0 <= h.slot < cap
    }

    /** `pLive`, which does not look at the pool; `bad` says that it read what is not the map's. */
    method Contains(h: Handle) returns (live: bool, ghost bad: bool)
      requires Valid() && Intact()
      ensures bad <==> Touches(h) && !Readable()
      ensures live <==> |ent| == cap && PLive(State(), epoch, h)
      ensures live ==> 1 <= PLow(ent[h.slot]) <= cap
    {
      if PEp(h.ep) != PEp(epoch) || h.slot < 0 || h.slot >= cap {
        return false, false;
      }
      bad := !Mine(at.Ent(cap));
      var e := ent[h.slot];
      if PLow(e) == 0 || PLow(e) > cap {
        live := false;
        return;
      }
      live := PGen(e) == h.gen;
    }

    /**
     `get`.  As long as the map's pool lives, the value under a handle is what the finite map has, for any
     handle to a slot handed out.  Afterwards the map reads memory that is not its own, unless the handle
     is refused before: then nothing is said about the result.
     */
    method Lookup(h: Handle) returns (r: Option<V>, ghost bad: bool)
      requires Valid() && Intact() && h.slot < cursor && h.ep == PEp(h.ep)
      ensures bad <==> Touches(h) && !Readable()
      ensures Readable() || !Touches(h) ==>
                r == if pid >= 0 && h in Contents(State(), epoch) then Some(Contents(State(), epoch)[h]) else None
    {
      if pid >= 0 {
        GetRefines(State(), epoch, h);
      }
      var live;
      live, bad := Contains(h);
      if !live {
        r := None;
        return;
      }
      bad := bad || !Mine(at.Ent(cap)) || !Mine(at.Vals(cap));
      r := Some(vals[PLow(ent[h.slot]) - 1]);
    }

    /** `pPoisonSelf`. */
    method Poison()
      modifies this`vals, this`slots, this`ent, this`n, this`cap, this`pid, this`at
      ensures pid == -1 && n == cap == 0 && vals == [] && slots == [] && ent == []
    {
      // without a pool `extc_pool_take` gives null
      vals, slots, ent, n, cap, pid, at := [], [], [], 0, 0, -1, Places(0, 0, 0);
    }

    /** `grow`. */
    method Enlarge()
      requires cap >= 0 && forall i | 0 <= i < |ent| :: Word(ent[i])
      modifies this`vals, this`slots, this`ent, this`cap, this`vacated, this`base
      ensures State() == Grow(old(State()), zero) && forall i | 0 <= i < |ent| :: Word(ent[i])
    {
      var more := cap / 2;
      UnpackZeros(ent, more);
      ghost var m := State();
      vals := Widened(vals, more, zero);
      slots := Widened(slots, more, 0);
      ent := Widened(ent, more, 0);
      cap := cap + more;
      vacated := Widened(vacated, more, 0);
      base := Widened(base, more, 0);
      assert State() == Grow(m, zero);
    }

    /** The slot `insert` uses: the first hole, or the next one never used. */
    method TakeSlot() returns (s: int)
      requires HasRoom(State())
      modifies this`holeHead, this`cursor, this`holes
      ensures s == FreeSlot(old(State())) && State() == Opened(old(State()))
    {
      if holeHead >= 0 {
        s := holeHead;
        holeHead := PLow(ent[s]) - cap - 2;
        holes := holes[1..];
      } else {
        s := cursor;
        cursor := cursor + 1;
      }
    }

    /** The writes of `insert`. */
    method Fill(s: int, v: V) returns (h: Handle)
      requires |vals| == |slots| == |ent| == |vacated| == cap < 0x8000_0000 && 0 <= s < cap && 0 <= n < cap
      requires forall i | 0 <= i < |ent| :: Word(ent[i])
      modifies this`vals, this`slots, this`ent, this`n, this`log
      ensures State() == Put(old(State()), s, v) && forall i | 0 <= i < |ent| :: Word(ent[i])
      ensures h == HandleOfSlot(old(State()), epoch, s)
    {
      var e := ent[s];
      Relabel(s, n + 1);
      slots := slots[n := s];
      vals := vals[n := v];
      n := n + 1;
      log := log[Ticket(s, vacated[s]) := v];
      h := Handle(s, PGen(e), PEp(epoch));
    }

    /** `insert` where there is room. */
    method Place(v: V) returns (h: Handle)
      requires HasRoom(State()) && cap < 0x8000_0000 && forall i | 0 <= i < |ent| :: Word(ent[i])
      modifies this`holeHead, this`cursor, this`holes, this`vals, this`slots, this`ent, this`n, this`log
      ensures State() == InsertIn(old(State()), v) && h == InsertHandle(old(State()), epoch)
      ensures forall i | 0 <= i < |ent| :: Word(ent[i])
    {
      var s := TakeSlot();
      h := Fill(s, v);
    }

    /** One block is moved and gets another size; the map has others, `rest`. */
    method MoveOne(ghost from: P.Block, p: nat, bytes: int, to: nat, ghost rest: set<P.Block>) returns (ok: bool)
      requires reg.Valid() && Readable() && L.Tied(reg.View(), pid, pidGen, born, rest + {from}) && from !in rest
      requires from.addr == p != 0 && bytes > 0 && to != 0 && (to == p || B.AddrUnowned(reg.pools, to))
      modifies reg
      ensures reg.Valid() && Readable() && (ok <==> old(reg.poolKind)[pid] == 0) && reg.zoneTop == old(reg.zoneTop)
      ensures !ok ==> reg.View() == old(reg.View())
      ensures ok ==>
                L.Tied(reg.View(), pid, pidGen, born, rest + {P.Block(to, bytes)}) && reg.poolKind == old(reg.poolKind)
      ensures ok ==> forall y: nat | y != to && (y == p || B.AddrUnowned(old(reg.pools), y)) ::
                       B.AddrUnowned(reg.pools, y)
    {
      ghost var v := reg.View();
      assert from in rest + {from};
      ok := MoveBlock(reg, pid, from, p, bytes, to);
      if ok {
        L.MovedTied(v, reg.View(), pid, pidGen, born, rest, from, P.Block(to, bytes));
      }
    }

    /**
     The three calls of `extc_pool_resize` in `grow`: refused exactly if the pool is an object table;
     otherwise every block has room for half as many cells again.
     */
    method MoveBlocks(to: Places) returns (ok: bool)
      requires Bound() && Readable() && pid >= 0 && CanMove(reg.pools, at, to)
      modifies reg, this`at
      ensures reg.Valid() && Readable() && (ok <==> old(reg.poolKind)[pid] == 0) && reg.zoneTop == old(reg.zoneTop)
      ensures ok ==> at == to && L.Tied(reg.View(), pid, pidGen, born, at.All(cap + cap / 2))
      ensures !ok ==> reg.View() == old(reg.View()) && at == old(at)
    {
      Owned(at.Slots(cap));
      Owned(at.Ent(cap));
      var ncap := cap + cap / 2;
      assert {at.Slots(cap), at.Ent(cap)} + {at.Vals(cap)} == at.All(cap);
      ok := MoveOne(at.Vals(cap), at.vals, ncap * VAL_BYTES, to.vals, {at.Slots(cap), at.Ent(cap)});
      if ok {
        assert {at.Slots(cap), at.Ent(cap)} + {to.Vals(ncap)} == {to.Vals(ncap), at.Slots(cap), at.Ent(cap)};
        MoveOthers(to, ncap);
        at := to;
      }
    }

    /** The second and the third. */
    method MoveOthers(to: Places, ncap: int)
      requires reg.Valid() && Readable() && pid >= 0 && cap > 0 && ncap == cap + cap / 2 && at.Distinct()
      requires L.Tied(reg.View(), pid, pidGen, born, {to.Vals(ncap), at.Slots(cap), at.Ent(cap)})
      requires reg.poolKind[pid] == 0 && to.Distinct() && to.vals != at.slots && to.vals != at.ent
      requires B.AddrUnowned(reg.pools, to.slots) || to.slots == at.slots
      requires B.AddrUnowned(reg.pools, to.ent) || to.ent == at.slots || to.ent == at.ent
      modifies reg
      ensures reg.Valid() && Readable() && reg.zoneTop == old(reg.zoneTop)
      ensures L.Tied(reg.View(), pid, pidGen, born, to.All(ncap))
    {
      OwnedBlock(at.Ent(cap));
      assert {to.Vals(ncap), at.Ent(cap)} + {at.Slots(cap)} == {to.Vals(ncap), at.Slots(cap), at.Ent(cap)};
      var ok := MoveOne(at.Slots(cap), at.slots, ncap * SLOT_BYTES, to.slots, {to.Vals(ncap), at.Ent(cap)});
      assert {to.Vals(ncap), at.Ent(cap)} + {to.Slots(ncap)} == {to.Vals(ncap), to.Slots(ncap)} + {at.Ent(cap)};
      ok := MoveOne(at.Ent(cap), at.ent, ncap * ENT_BYTES, to.ent, {to.Vals(ncap), to.Slots(ncap)});
      assert {to.Vals(ncap), to.Slots(ncap)} + {to.Ent(ncap)} == to.All(ncap);
    }

    lemma {:induction false} Owned(b: P.Block)
      requires Bound() && Readable() && pid >= 0 && b in at.All(cap)
      ensures !B.AddrUnowned(reg.pools, b.addr)
    {
      OwnedBlock(b);
    }

    lemma {:induction false} OwnedBlock(b: P.Block)
      requires L.Owns(reg.View(), pid, b)
      ensures !B.AddrUnowned(reg.pools, b.addr)
    {
      var i :| 0 <= i < |reg.pools[pid].blocks| && reg.pools[pid].blocks[i] == b;
    }

    /** `grow` as a whole. */
    method GrowMap(to: Places) returns (ok: bool)
      requires Bound() && Readable() && pid >= 0 && CanMove(reg.pools, at, to)
      requires cap >= 0 && forall i | 0 <= i < |ent| :: Word(ent[i])
      modifies this`vals, this`slots, this`ent, this`cap, this`vacated, this`base, this`at, reg
      ensures Bound() && Readable() && (ok <==> old(reg.poolKind)[pid] == 0) && reg.zoneTop == old(reg.zoneTop)
      ensures forall i | 0 <= i < |ent| :: Word(ent[i])
      ensures ok ==> State() == Grow(old(State()), zero)
    {
      ok := MoveBlocks(to);
      if ok {
        Enlarge();
      }
    }

    /** `insert` into a full map with a pool. */
    method AdmitFull(v: V, to: Places) returns (r: InsertResult)
      requires Bound() && Readable() && pid >= 0 && CanMove(reg.pools, at, to)
      requires cap >= 0 && forall i | 0 <= i < |ent| :: Word(ent[i])
      requires HasRoom(Grow(State(), zero)) && Grow(State(), zero).cap < 0x8000_0000
      modifies this`holeHead, this`cursor, this`holes, this`vals, this`slots, this`ent, this`n, this`log,
               this`cap, this`vacated, this`base, this`at, reg
      ensures Bound() && Readable() && reg.zoneTop == old(reg.zoneTop)
      ensures r.Trapped? <==> old(reg.poolKind)[pid] != 0
      ensures r.Inserted? ==> State() == InsertIn(Grow(old(State()), zero), v)
      ensures r.Inserted? ==> r.h == InsertHandle(Grow(old(State()), zero), epoch)
      ensures r.Inserted? ==> forall i | 0 <= i < |ent| :: Word(ent[i])
    {
      r := Trapped;
      var ok := GrowMap(to);
      if ok {
        var h := Place(v);
        r := Inserted(h);
      }
    }

    /** `insert` into a map with cells. */
    method InsertHere(v: V, to: Places) returns (r: InsertResult)
      requires cap >= 0 && HasRoom(WithRoom(State(), zero)) && WithRoom(State(), zero).cap < 0x8000_0000
      requires Bound() && forall i | 0 <= i < |ent| :: Word(ent[i])
      requires IsFull(State()) ==> Readable() && pid >= 0 && CanMove(reg.pools, at, to)
      modifies this`holeHead, this`cursor, this`holes, this`vals, this`slots, this`ent, this`n, this`log,
               this`cap, this`vacated, this`base, this`at, reg
      ensures Bound() && (old(Readable()) ==> Readable()) && reg.zoneTop == old(reg.zoneTop)
      ensures r.Trapped? <==> old(IsFull(State()) && reg.poolKind[pid] != 0)
      ensures old(!IsFull(State())) ==> reg.View() == old(reg.View())
      ensures r.Inserted? ==>
                && State() == InsertIn(WithRoom(old(State()), zero), v)
                && r.h == InsertHandle(WithRoom(old(State()), zero), epoch)
      ensures r.Inserted? ==> forall i | 0 <= i < |ent| :: Word(ent[i])
    {
      if holeHead < 0 && cursor >= cap {
        r := AdmitFull(v, to);
      } else {
        var h := Place(v);
        r := Inserted(h);
      }
    }

    /** `insert` into an orderly map. */
    method InsertInto(ghost m: Map<V>, v: V, to: Places) returns (r: InsertResult)
      requires m == State() && MapInv(m) && Bound() && forall i | 0 <= i < |ent| :: Word(ent[i])
      requires IsFull(State()) ==> Readable() && pid >= 0 && CanMove(reg.pools, at, to) && CanGrow(State())
      modifies this`holeHead, this`cursor, this`holes, this`vals, this`slots, this`ent, this`n, this`log,
               this`cap, this`vacated, this`base, this`at, reg
      ensures Bound() && (old(Readable()) ==> Readable()) && reg.zoneTop == old(reg.zoneTop)
      ensures r.Trapped? <==> old(IsFull(State()) && reg.poolKind[pid] != 0)
      ensures old(!IsFull(State())) ==> reg.View() == old(reg.View())
      ensures Gains(m, State(), zero, epoch, v, r)
      ensures r.Inserted? ==> MapInv(State()) && forall i | 0 <= i < |ent| :: Word(ent[i])
    {
      InsertGains(m, zero, v, epoch);
      r := InsertHere(v, to);
    }

    /**
     `insert`: traps when the map's pool is gone or was reset, or is an object table that would have to move
     a block; otherwise the finite map gains exactly one entry, under a handle it did not have.  It touches
     what is not the map's exactly if the map never got a pool.
     */
    method Insert(v: V, to: Places) returns (r: InsertResult, ghost bad: bool)
      requires Valid() && Bound()
      requires pid >= 0 && IsFull(State()) ==> CanGrow(State()) && CanMove(reg.pools, at, to)
      modifies this, reg
      ensures bad <==> old(pid < 0 && cap > 0)
      ensures Bound() && reg.zoneTop == old(reg.zoneTop)
      ensures old(!IsFull(State())) ==> reg.View() == old(reg.View())
      ensures !bad ==>
                (r.Trapped? <==> old(pid < 0 || reg.Generation(pid) != pidGen
                                     || (IsFull(State()) && reg.poolKind[pid] != 0)))
      ensures !bad && r.Inserted? ==>
                Valid() && Readable() && pid == old(pid) >= 0 && epoch == old(epoch) && pidGen == old(pidGen)
      ensures !bad ==> Gains(old(State()), State(), zero, epoch, v, r)
    {
      // a poisoned map has no cells and does not grow, so its first access to one is out of bounds
      r, bad := Trapped, false;
      if pid >= 0 && reg.Generation(pid) != pidGen {
        Poison();
      } else if cap != 0 {
        BoundIsIntact();
        bad := !Readable();
        r := InsertInto(State(), v, to);
      }
    }

    /**
     `remove`: false when the handle does not validate; otherwise the last entry moves into the gap
     and the finite map loses exactly this entry.
     */
    method Remove(h: Handle) returns (r: bool, ghost bad: bool)
      requires Valid() && Intact() && h.slot < cursor && h.ep == PEp(h.ep)
      modifies this`vals, this`slots, this`ent, this`n, this`holeHead, this`holes, this`vacated
      ensures bad <==> old(Touches(h) && !Readable())
      ensures !bad ==> Valid() && (r <==> old(pid >= 0 && h in Contents(State(), epoch)))
      ensures !bad && !r ==> State() == old(State())
      ensures !bad && r ==> Occupied(old(State()), h.slot) && State() == Cut(old(State()), h.slot)
      ensures !bad && r ==> Contents(State(), epoch) == old(Contents(State(), epoch)) - {h}
    {
      r, bad := Contains(h);
      RemoveIf(h, r);
    }

    /** The rest of `remove`. */
    method RemoveIf(h: Handle, live: bool)
      requires Valid() && h.slot < cursor && h.ep == PEp(h.ep) && (live <==> |ent| == cap && PLive(State(), epoch, h))
      modifies this`vals, this`slots, this`ent, this`n, this`holeHead, this`holes, this`vacated
      ensures Valid() && (live <==> old(pid >= 0 && h in Contents(State(), epoch)))
      ensures !live ==> State() == old(State())
      ensures live ==> Occupied(old(State()), h.slot) && State() == Cut(old(State()), h.slot)
      ensures live ==> Contents(State(), epoch) == old(Contents(State(), epoch)) - {h}
    {
      if pid >= 0 {
        GetRefines(State(), epoch, h);
      }
      if live {
        RemoveRefines(State(), epoch, h);
        CutOut(h.slot);
      }
    }

    /** The gap at `d` is filled by the last entry, whose word is redirected. */
    method MoveLast(d: int)
      requires |vals| == |slots| == |ent| == cap < 0x8000_0000 && 0 <= d < n - 1 < cap && 0 <= slots[n - 1] < cap
      requires forall i | 0 <= i < |ent| :: Word(ent[i])
      modifies this`vals, this`slots, this`ent
      ensures State() == LastMoved(old(State()), d) && forall i | 0 <= i < |ent| :: Word(ent[i])
    {
      var last := n - 1;
      vals := vals[d := vals[last]];
      var moved := slots[last];
      slots := slots[d := moved];
      Relabel(moved, d + 1);
    }

    /** The word of a slot gets a new low half. */
    method Relabel(s: int, low: int)
      requires 0 <= s < |ent| && 0 <= low < 0x1_0000_0000 && forall i | 0 <= i < |ent| :: Word(ent[i])
      modifies this`ent
      ensures |ent| == |old(ent)| && forall i | 0 <= i < |ent| :: Word(ent[i])
      ensures UnpackAll(ent) == UnpackAll(old(ent))[s := Entry(UnpackAll(old(ent))[s].gen, low)]
    {
      UnpackPack(ent[s]);
      assert Wrap32(PGen(ent[s])) == PGen(ent[s]);
      Rewrite(s, PGen(ent[s]), low);
    }

    /** The word of a slot is packed anew. */
    method Rewrite(s: int, gen: int, low: int)
      requires 0 <= s < |ent| && 0 <= low < 0x1_0000_0000 && forall i | 0 <= i < |ent| :: Word(ent[i])
      modifies this`ent
      ensures |ent| == |old(ent)| && forall i | 0 <= i < |ent| :: Word(ent[i])
      ensures UnpackAll(ent) == UnpackAll(old(ent))[s := Entry(Wrap32(gen), low)]
    {
      PackUnpack(gen, low);
      UnpackUpdate(ent, s, PPack(gen, low));
      ent := ent[s := PPack(gen, low)];
    }

    /** Slot `s` joins the free list: its generation goes up and its word encodes the old head. */
    method FreeCell(s: int)
      requires 0 <= s < |ent| == |vacated| && 0 <= holeHead + cap + 2 < 0x1_0000_0000
      requires forall i | 0 <= i < |ent| :: Word(ent[i])
      modifies this`ent, this`n, this`holeHead, this`holes, this`vacated
      ensures State() == CellFreed(old(State()), s) && forall i | 0 <= i < |ent| :: Word(ent[i])
    {
      n := n - 1;
      Rewrite(s, PGen(ent[s]) + 1, holeHead + cap + 2);
      holeHead := s;
      holes := [s] + holes;
      vacated := vacated[s := vacated[s] + 1];
    }

    /** The writes of `remove`. */
    method CutOut(s: int)
      requires Sized(State()) && Occupied(State(), s) && 0 <= slots[n - 1] < cap && -1 <= holeHead < cap
      requires PLow(ent[s]) != n ==> slots[n - 1] != s
      requires forall i | 0 <= i < |ent| :: Word(ent[i])
      modifies this`vals, this`slots, this`ent, this`n, this`holeHead, this`holes, this`vacated
      ensures State() == Cut(old(State()), s) && forall i | 0 <= i < |ent| :: Word(ent[i])
    {
      CutInTwo(State(), s);
      var d := PLow(ent[s]) - 1;
      if d != n - 1 {
        MoveLast(d);
      }
      FreeCell(s);
    }

    /** `atDense` and `handleAtDense`: as long as the pool lives, the dense array enumerates the entries. */
    method AtDense(i: int) returns (v: V, h: Handle, ghost bad: bool)
      requires Valid() && Intact() && 0 <= i < n
      ensures bad <==> !Readable()
      ensures Readable() ==> h in Contents(State(), epoch) && Contents(State(), epoch)[h] == v
    {
      var s := slots[i];
      assert State().ent[State().slots[i]].low == i + 1;
      h := Handle(s, PGen(ent[s]), PEp(epoch));
      v := vals[i];
      bad := !Mine(at.Vals(cap)) || !Mine(at.Slots(cap)) || !Mine(at.Ent(cap));
      InContents(State(), epoch, h);
    }
  }

  // ---------------------------------------------------------------- what happens to the pool under a map

  /** Nobody owns the blocks at these addresses. */
  ghost predicate NotOwned(pools: seq<P.Pool>, at: Places) {
    B.AddrUnowned(pools, at.vals) && B.AddrUnowned(pools, at.slots) && B.AddrUnowned(pools, at.ent)
  }

  /**
   Whatever the registry does to other pools, a map stays tied to its pool, and its pool lives on unless
   the step kills it; if it does, the blocks are nobody's.
   */
  lemma {:induction false} StepUnder(v: P.View, w: P.View, s: L.Step, pid: int, gen: nat, born: nat, at: Places,
          c: int)
    requires L.Stepped(v, w, s) && !s.Reblocks? && L.Tied(v, pid, gen, born, at.All(c)) && L.Lives(v, pid, born)
    ensures L.Tied(w, pid, gen, born, at.All(c)) && (L.Lives(w, pid, born) <==> !L.Hits(v, s, pid))
    ensures L.Hits(v, s, pid) ==> NotOwned(w.pools, at)
  {
    L.TiedStays(v, w, s, pid, gen, born, at.All(c));
    L.LifeGoesOn(v, w, s, pid, born);
    if L.Hits(v, s, pid) {
      assert L.Owns(v, pid, at.Vals(c)) && L.Owns(v, pid, at.Slots(c)) && L.Owns(v, pid, at.Ent(c));
      L.HitFrees(v, w, s, pid, at.vals);
      L.HitFrees(v, w, s, pid, at.slots);
      L.HitFrees(v, w, s, pid, at.ent);
    }
  }

  /** Places are left under a map: it can be read after that exactly if its pool is not one of those that go. */
  method LeaveUnder<V>(slotMap: SlotMap<V>, mark: int)
    requires slotMap.Bound() && slotMap.Readable() && slotMap.pid >= 0 && 0 <= mark <= slotMap.reg.zoneTop
    modifies slotMap.reg
    ensures slotMap.Bound() && slotMap.Intact()
    ensures slotMap.Readable() <==> slotMap.pid !in R.DoomedSet(old(slotMap.reg.View()), mark)
    ensures !slotMap.Readable() ==> NotOwned(slotMap.reg.pools, slotMap.at)
  {
    ghost var v := slotMap.reg.View();
    slotMap.reg.ZoneLeaveTo(mark);
    ghost var s := L.Kills(R.DoomedSet(v, mark));
    StepUnder(v, slotMap.reg.View(), s, slotMap.pid, slotMap.pidGen, slotMap.born, slotMap.at, slotMap.cap);
    slotMap.BoundIsIntact();
  }

  /**
   A pool is reset under a map: it can be read after that unless its pool was nested in the one reset.
   If it is that pool, its generation is another from then on, so the next insertion traps.
   */
  method ResetUnder<V>(slotMap: SlotMap<V>, rid: int)
    requires slotMap.Bound() && slotMap.Readable() && slotMap.pid >= 0 && P.Live(slotMap.reg.View(), rid)
    modifies slotMap.reg
    ensures slotMap.Bound() && slotMap.Intact()
    ensures slotMap.Readable() <==> slotMap.pid !in P.Tree(old(slotMap.reg.View()), rid) - {rid}
    ensures !slotMap.Readable() ==> NotOwned(slotMap.reg.pools, slotMap.at)
    ensures rid == slotMap.pid ==> slotMap.Readable() && slotMap.reg.Generation(rid) != slotMap.pidGen
  {
    ghost var v := slotMap.reg.View();
    slotMap.reg.Reset(rid);
    StepUnder(v, slotMap.reg.View(), L.Resets(rid), slotMap.pid, slotMap.pidGen, slotMap.born, slotMap.at, slotMap.cap);
    slotMap.BoundIsIntact();
  }

  /** A new map in a new place, with one entry. */
  method MapWithOne<V>(stale: P.Zone, places: Places, vals0: seq<V>, slots0: seq<int>, ent0: seq<int>, zero: V, v: V)
    returns (slotMap: SlotMap<V>, h: Handle)
    requires places.Distinct() && |vals0| == |slots0| == |ent0| == 8 && forall i | 0 <= i < 8 :: Word(ent0[i])
    ensures fresh(slotMap) && fresh(slotMap.reg) && slotMap.Valid() && slotMap.Bound()
    ensures slotMap.Intact() && slotMap.Readable()
    ensures slotMap.pid >= 0 && slotMap.reg.zoneTop == 0 && slotMap.reg.pools[slotMap.pid].zone == 0
    ensures Contents(slotMap.State(), slotMap.epoch) == map[h := v] && !IsFull(slotMap.State())
  {
    var reg := new R.Registry();
    var z := reg.ZoneEnter(stale);
    slotMap := new SlotMap(reg, -1, 0, 8, places, vals0, slots0, ent0, zero);
    slotMap.BoundIsIntact();
    var r;
    ghost var bad;
    r, bad := slotMap.Insert(v, places);
    h := r.h;
    slotMap.BoundIsIntact();
  }

  lemma {:induction false} EntryInReach<V>(m: Map<V>, epoch: int, h: Handle)
    requires MapInv(m) && h in Contents(m, epoch)
    ensures 0 <= h.slot < m.cursor <= m.cap && PEp(h.ep) == h.ep == PEp(epoch)
  {
    InContents(m, epoch, h);
  }

  /**
   A run in which the place of a map is left under it: the entry was there, and a lookup of it afterwards
   reads a block that no pool owns.
   */
  method DroppedUnderMap<V>(stale: P.Zone, places: Places, vals0: seq<V>, slots0: seq<int>, ent0: seq<int>, zero: V,
                            v: V)
    returns (slotMap: SlotMap<V>, h: Handle, first: Option<V>, ghost bad: bool)
    requires places.Distinct() && |vals0| == |slots0| == |ent0| == 8 && forall i | 0 <= i < 8 :: Word(ent0[i])
    ensures slotMap.Valid() && slotMap.Bound() && Contents(slotMap.State(), slotMap.epoch) == map[h := v]
    ensures first == Some(v)
    ensures bad && NotOwned(slotMap.reg.pools, slotMap.at)
  {
    slotMap, h := MapWithOne(stale, places, vals0, slots0, ent0, zero, v);
    EntryInReach(slotMap.State(), slotMap.epoch, h);
    ghost var good;
    first, good := slotMap.Lookup(h);
    InTopIsDoomed(slotMap.reg.View(), slotMap.pid);
    LeaveUnder(slotMap, 0);
    var second;
    second, bad := slotMap.Lookup(h);
  }

  lemma {:induction false} InTopIsDoomed(v: P.View, x: int)
    requires P.Sizes(v) && P.Live(v, x) && v.pools[x].zone >= 0
    ensures x in R.DoomedSet(v, 0)
  {
    assert P.Under(v.pools, v.shape.birth, x, x);
    assert R.Doomed(v, 0, x);
  }

  /** A run in which the pool of a map is reset under it: the entry is found all the same. */
  method ResetUnderMap<V>(stale: P.Zone, places: Places, vals0: seq<V>, slots0: seq<int>, ent0: seq<int>, zero: V, v: V)
    returns (slotMap: SlotMap<V>, h: Handle, found: Option<V>, r: InsertResult, ghost bad: bool)
    requires places.Distinct() && |vals0| == |slots0| == |ent0| == 8 && forall i | 0 <= i < 8 :: Word(ent0[i])
    ensures found == Some(v) && !bad && r == Trapped
  {
    slotMap, h := MapWithOne(stale, places, vals0, slots0, ent0, zero, v);
    EntryInReach(slotMap.State(), slotMap.epoch, h);
    ResetUnder(slotMap, slotMap.pid);
    found, bad := slotMap.Lookup(h);
    ghost var touched;
    r, touched := slotMap.Insert(v, places);
  }
}
