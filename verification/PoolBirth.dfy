/**
 Creating a pool: a slot is taken from the free chain, or the table grows and its first new slot
 is used; then the slot is initialised and pushed on its zone's chain and its parent's.
 */
module PoolBirth {
  import opened Chains
  import opened Counting
  import opened PoolState
  import opened PoolSurgery

  function Unused(): Pool {
    Pool(0, -1, -1, -1, -1, -1, -1, false, 0, [], 0)
  }

  /** The table size wanted by a growth. */
  function Wanted(n: nat): (m: nat)
    ensures m > n
  {
    if n > 0 then n * 2 else 64
  }

  /** A table with `more` entries added at its end, all alike. */
  function Padded<T>(xs: seq<T>, more: nat, x: T): (ys: seq<T>)
    ensures |ys| == |xs| + more && xs <= ys
    ensures forall p | |xs| <= p < |ys| :: ys[p] == x
  {
    xs + seq(more, _ => x)
  }

  /** A slot set aside: not live, not on the free chain, and the one the counts are short of. */
  ghost predicate Reserved(v: View, idx: int) {
    Core(v) && CountsOk(v, 1) && 0 <= idx < |v.pools| && !v.pools[idx].live && idx !in v.shape.freeChain
  }

  ghost function PoppedFree(v: View): View
    requires 0 <= v.freeHead < |v.pools| && v.shape.freeChain != []
  {
    v.(freeHead := v.pools[v.freeHead].freeNext, shape := v.shape.(freeChain := v.shape.freeChain[1..]))
  }

  lemma {:induction false} PopReserves(v: View)
    requires Inv(v) && v.freeHead >= 0
    ensures v.shape.freeChain != [] && v.freeHead == v.shape.freeChain[0]
    ensures Reserved(PoppedFree(v), v.freeHead)
  {
    var w := PoppedFree(v);
    LinkedCons(v.pools, FreeLink, v.freeHead, v.shape.freeChain);
    assert v.shape.freeChain[0] in v.shape.freeChain;
    assert FreeOk(w) by {
      assert forall x | x in w.shape.freeChain :: x in v.shape.freeChain;
    }
    forall z | 0 <= z <= w.zoneTop ensures ZoneOk(w, z) { assert ZoneOk(v, z); }
    forall p | Live(w, p) ensures ChildrenOk(w, p) { assert ChildrenOk(v, p); }
    forall p | Live(w, p) ensures PoolOk(w, p) { assert PoolOk(v, p); }
    BlocksSame(v, w);
  }

  lemma {:induction false} BlocksSame(v: View, w: View)
    requires BlocksOk(v) && |w.pools| == |v.pools| && w.bytesAll == v.bytesAll
    requires forall p | 0 <= p < |v.pools| ::
               w.pools[p].blocks == v.pools[p].blocks && w.pools[p].bytes == v.pools[p].bytes
                 && w.pools[p].live == v.pools[p].live
    ensures BlocksOk(w)
  {
    TotalSame(v.pools, w.pools);
  }

  ghost function Grown(v: View): View {
    var more := Wanted(|v.pools|) - |v.pools|;
    v.(pools := Padded(v.pools, more, Unused()), kind := Padded(v.kind, more, 0),
       shape := v.shape.(childChains := Padded(v.shape.childChains, more, []), birth := Padded(v.shape.birth, more, 0),
                         growths := v.shape.growths + 1))
  }

  /** Growth leaves all but the first new slot aside for good: they are not put on the free chain. */
  lemma {:induction false} GrowReserves(v: View, w: View)
    requires Inv(v) && v.freeHead < 0 && w == Grown(v)
    ensures Reserved(w, |v.pools|)
  {
    GrownChains(v, w);
    GrownCounts(v, w);
  }

  lemma {:induction false} GrownCounts(v: View, w: View)
    requires BlocksOk(v) && CountsOk(v, 0) && v.shape.freeChain == [] && w == Grown(v)
    ensures BlocksOk(w) && CountsOk(w, 1)
  {
    TotalLonger(v.pools, w.pools);
    GrownBlocks(v, w);
    LiveSetLonger(v.pools, w.pools);
    CapacityStep(v.shape.growths);
  }

  lemma {:induction false} GrownChains(v: View, w: View)
    requires Core(v) && v.freeHead < 0 && w == Grown(v)
    ensures v.shape.freeChain == [] && Sizes(w) && FreeOk(w)
    ensures forall z {:trigger ZoneOk(w, z)} | 0 <= z <= v.zoneTop :: ZoneOk(w, z)
    ensures forall p {:trigger ChildrenOk(w, p)} | Live(w, p) :: ChildrenOk(w, p)
    ensures forall p {:trigger PoolOk(w, p)} | Live(w, p) :: PoolOk(w, p)
  {
    assert v.shape.freeChain == [] by {
      assert v.freeHead == At(v.shape.freeChain, 0);
    }
    forall z | 0 <= z <= w.zoneTop ensures ZoneOk(w, z) { GrownZone(v, w, z); }
    forall p | Live(w, p) ensures ChildrenOk(w, p) { GrownChildren(v, w, p); }
    forall p | Live(w, p) ensures PoolOk(w, p) { assert Live(v, p) && PoolOk(v, p); }
  }

  lemma {:induction false} GrownZone(v: View, w: View, z: int)
    requires Sizes(v) && 0 <= z <= v.zoneTop && ZoneOk(v, z) && w == Grown(v)
    ensures ZoneOk(w, z)
  {
    LinkedLonger(v.pools, w.pools, ZoneLink, v.zones[z].firstPool, v.shape.zoneChains[z]);
  }

  lemma {:induction false} GrownChildren(v: View, w: View, p: int)
    requires Core(v) && w == Grown(v) && Live(w, p)
    ensures ChildrenOk(w, p)
  {
    assert Live(v, p) && ChildrenOk(v, p);
    LinkedLonger(v.pools, w.pools, ChildLink, v.pools[p].firstChild, v.shape.childChains[p]);
  }

  lemma {:induction false} GrownBlocks(v: View, w: View)
    requires BlocksOk(v) && w == Grown(v) && TotalBytes(w.pools) == TotalBytes(v.pools)
    ensures BlocksOk(w)
  {
    forall p | 0 <= p < |w.pools| ensures w.pools[p] == if p < |v.pools| then v.pools[p] else Unused() {}
  }

  lemma {:induction false} CapacityStep(growths: nat)
    ensures Wanted(Capacity(growths)) == Capacity(growths + 1)
    ensures Capacity(growths) >= growths
    ensures growths > 0 ==> Capacity(growths) >= 64
  {
    if growths > 1 {
      CapacityStep(growths - 1);
    }
  }

  lemma {:induction false} LinkedLonger(pools: seq<Pool>, pools': seq<Pool>, k: Link, head: int, chain: seq<int>)
    requires Linked(pools, k, head, chain) && pools <= pools'
    ensures Linked(pools', k, head, chain)
  {
    forall i | 0 <= i < |chain| ensures Next(pools'[chain[i]], k) == At(chain, i + 1) {
      assert Next(pools[chain[i]], k) == At(chain, i + 1);
    }
  }

  lemma {:induction false} TotalLonger(pools: seq<Pool>, pools': seq<Pool>)
    requires pools <= pools' && forall p | |pools| <= p < |pools'| :: pools'[p].blocks == []
    ensures TotalBytes(pools') == TotalBytes(pools)
  {
    if |pools'| == |pools| {
      assert pools' == pools;
    } else {
      TotalLonger(pools, pools'[..|pools'| - 1]);
    }
  }

  // ---------------------------------------------------------------- initialising the slot

  function Newborn(old_: Pool, parent: int, zone: int, color: int, nextSibling: int, zoneNext: int): Pool {
    old_.(generation := old_.generation + 1, live := true, parent := parent, zone := zone, color := color,
          firstChild := -1, nextSibling := nextSibling, zoneNext := zoneNext, blocks := [], bytes := 0)
  }

  ghost predicate Born(v: View, w: View, idx: int, parent: int, zi: int)
    requires Sizes(v) && 0 <= idx < |v.pools| && 0 <= zi <= v.zoneTop && (parent < 0 || Live(v, parent))
  {
    var siblings := if parent >= 0 then v.shape.childChains[parent] else [];
    && |w.pools| == |v.pools|
    && w.pools[idx] == Newborn(v.pools[idx], parent, zi, v.zones[zi].color,
                               if parent >= 0 then v.pools[parent].firstChild else -1, v.zones[zi].firstPool)
    && (forall p | 0 <= p < |v.pools| && p != idx ::
          w.pools[p] == if p == parent then v.pools[p].(firstChild := idx) else v.pools[p])
    && w.zones == v.zones[zi := v.zones[zi].(firstPool := idx)]
    && w == v.(pools := w.pools, zones := w.zones, liveN := v.liveN + 1, shape := BornShape(v.shape, idx, parent, zi))
  }

  ghost function BornShape(s: Shape, idx: int, parent: int, zi: int): Shape
    requires 0 <= idx < |s.birth| == |s.childChains| && parent < |s.childChains| && 0 <= zi < |s.zoneChains|
  {
    var chains := s.childChains[idx := []];
    s.(zoneChains := s.zoneChains[zi := [idx] + s.zoneChains[zi]],
       childChains := if parent >= 0 then chains[parent := [idx] + chains[parent]] else chains,
       birth := s.birth[idx := s.clock], clock := s.clock + 1)
  }

  lemma {:induction false} DescendingCons(birth: seq<nat>, birth': seq<nat>, chain: seq<int>, idx: int, clock: nat)
    requires Descending(birth, chain) && 0 <= idx < |birth| && idx !in chain && birth' == birth[idx := clock]
    ensures Descending(birth', chain)
    ensures (forall x | x in chain && 0 <= x < |birth| :: birth[x] < clock) ==> Descending(birth', [idx] + chain)
  {
    forall i | 0 <= i < |chain| ensures birth'[chain[i]] == birth[chain[i]] {
      assert chain[i] in chain;
    }
    if forall x | x in chain && 0 <= x < |birth| :: birth[x] < clock {
      forall i, j | 0 <= i < j < |[idx] + chain| ensures birth'[([idx] + chain)[i]] > birth'[([idx] + chain)[j]] {
        if i == 0 {
          assert chain[j - 1] in chain;
        }
      }
    }
  }

  lemma {:induction false} OlderThanClock(v: View, chain: seq<int>)
    requires Core(v) && forall x | x in chain :: Live(v, x)
    ensures forall x | x in chain && 0 <= x < |v.shape.birth| :: v.shape.birth[x] < v.shape.clock
  {
    forall x | x in chain && 0 <= x < |v.shape.birth| ensures v.shape.birth[x] < v.shape.clock {
      assert PoolOk(v, x);
    }
  }

  /** A chain that gains a new head: the newborn links to the old head and is the youngest. */
  lemma {:induction false} ChainGains(pools: seq<Pool>, pools': seq<Pool>, k: Link, head: int, chain: seq<int>,
          idx: int,
                                      birth: seq<nat>, birth': seq<nat>, clock: nat)
    requires Linked(pools, k, head, chain) && Descending(birth, chain) && idx !in chain
    requires |pools'| == |pools| && 0 <= idx < |pools| && idx < |birth| && birth' == birth[idx := clock]
    requires forall x | x in chain && 0 <= x < |birth| :: birth[x] < clock
    requires forall y | 0 <= y < |pools| && y != idx :: Next(pools'[y], k) == Next(pools[y], k)
    requires Next(pools'[idx], k) == head
    ensures Linked(pools', k, idx, [idx] + chain) && Descending(birth', [idx] + chain)
    ensures Linked(pools', k, head, chain) && Descending(birth', chain)
  {
    DescendingCons(birth, birth', chain, idx, clock);
    LinkedElsewhereSame(pools, pools', k, head, chain);
    LinkedCons(pools', k, idx, [idx] + chain);
    assert ([idx] + chain)[1..] == chain;
  }

  lemma {:induction false} BornElsewhere(v: View, w: View, idx: int, parent: int, zi: int, z: int)
    requires Reserved(v, idx) && 0 <= zi <= v.zoneTop && (parent < 0 || Live(v, parent))
    requires Born(v, w, idx, parent, zi)
    requires 0 <= z <= v.zoneTop && z != zi
    ensures ZoneOk(w, z)
  {
    assert ZoneOk(v, z);
    var chain := v.shape.zoneChains[z];
    assert idx !in chain;
    DescendingCons(v.shape.birth, w.shape.birth, chain, idx, v.shape.clock);
    LinkedElsewhereSame(v.pools, w.pools, ZoneLink, v.zones[z].firstPool, chain);
  }

  lemma {:induction false} BornHere(v: View, w: View, idx: int, parent: int, zi: int)
    requires Reserved(v, idx) && 0 <= zi <= v.zoneTop && (parent < 0 || Live(v, parent))
    requires Born(v, w, idx, parent, zi)
    ensures ZoneOk(w, zi)
  {
    assert ZoneOk(v, zi);
    var chain := v.shape.zoneChains[zi];
    assert idx !in chain;
    OlderThanClock(v, chain);
    ChainGains(v.pools, w.pools, ZoneLink, v.zones[zi].firstPool, chain, idx, v.shape.birth, w.shape.birth,
      v.shape.clock);
  }

  lemma {:induction false} BornZone(v: View, w: View, idx: int, parent: int, zi: int, z: int)
    requires Reserved(v, idx) && 0 <= zi <= v.zoneTop && (parent < 0 || Live(v, parent))
    requires Born(v, w, idx, parent, zi)
    requires 0 <= z <= v.zoneTop
    ensures ZoneOk(w, z)
  {
    if z == zi {
      BornHere(v, w, idx, parent, zi);
    } else {
      BornElsewhere(v, w, idx, parent, zi, z);
    }
  }

  lemma {:induction false} BornChildren(v: View, w: View, idx: int, parent: int, zi: int, p: int)
    requires Reserved(v, idx) && 0 <= zi <= v.zoneTop && (parent < 0 || Live(v, parent))
    requires Born(v, w, idx, parent, zi)
    requires Live(w, p)
    ensures ChildrenOk(w, p)
  {
    if p != idx {
      assert Live(v, p) && ChildrenOk(v, p);
      var chain := v.shape.childChains[p];
      assert idx !in chain;
      OlderThanClock(v, chain);
      DescendingCons(v.shape.birth, w.shape.birth, chain, idx, v.shape.clock);
      LinkedElsewhereSame(v.pools, w.pools, ChildLink, v.pools[p].firstChild, chain);
      if p == parent {
        LinkedCons(w.pools, ChildLink, idx, [idx] + chain);
        assert ([idx] + chain)[1..] == chain;
      }
    }
  }

  lemma {:induction false} BornPool(v: View, w: View, idx: int, parent: int, zi: int, p: int)
    requires Reserved(v, idx) && 0 <= zi <= v.zoneTop && (parent < 0 || Live(v, parent))
    requires Born(v, w, idx, parent, zi)
    requires Live(w, p)
    ensures PoolOk(w, p)
  {
    assert ZoneOk(v, zi);
    if p != idx {
      assert Live(v, p) && PoolOk(v, p);
    } else if parent >= 0 {
      assert PoolOk(v, parent);
    }
  }

  /** A new pool keeps the invariant. */
  lemma {:induction false} BornKeepsInv(v: View, w: View, idx: int, parent: int, zi: int)
    requires Reserved(v, idx) && 0 <= zi <= v.zoneTop && (parent < 0 || Live(v, parent))
    requires Born(v, w, idx, parent, zi)
    ensures Inv(w)
  {
    forall z | 0 <= z <= w.zoneTop ensures ZoneOk(w, z) { BornZone(v, w, idx, parent, zi, z); }
    forall p | Live(w, p) ensures ChildrenOk(w, p) { BornChildren(v, w, idx, parent, zi, p); }
    forall p | Live(w, p) ensures PoolOk(w, p) { BornPool(v, w, idx, parent, zi, p); }
    BornFreeAndCounts(v, w, idx, parent, zi);
    BornBlocks(v, w, idx, parent, zi);
  }

  lemma {:induction false} BornFreeAndCounts(v: View, w: View, idx: int, parent: int, zi: int)
    requires Reserved(v, idx) && 0 <= zi <= v.zoneTop && (parent < 0 || Live(v, parent))
    requires Born(v, w, idx, parent, zi)
    ensures FreeOk(w) && CountsOk(w, 0)
  {
    LinkedElsewhereSame(v.pools, w.pools, FreeLink, v.freeHead, v.shape.freeChain);
    LiveSetPlus(v.pools, w.pools, idx);
  }

  lemma {:induction false} LiveSetPlus(pools: seq<Pool>, pools': seq<Pool>, idx: int)
    requires 0 <= idx < |pools| == |pools'| && !pools[idx].live && pools'[idx].live
    requires forall p | 0 <= p < |pools| && p != idx :: pools'[p].live == pools[p].live
    ensures |LiveSet(pools')| == |LiveSet(pools)| + 1
  {
    assert LiveSet(pools') == LiveSet(pools) + {idx};
  }

  lemma {:induction false} LiveSetLonger(pools: seq<Pool>, pools': seq<Pool>)
    requires pools <= pools' && forall p | |pools| <= p < |pools'| :: !pools'[p].live
    ensures LiveSet(pools') == LiveSet(pools)
  {
    assert forall p | 0 <= p < |pools| :: pools'[p] == pools[p];
  }

  lemma {:induction false} BornBlocks(v: View, w: View, idx: int, parent: int, zi: int)
    requires Reserved(v, idx) && 0 <= zi <= v.zoneTop && (parent < 0 || Live(v, parent))
    requires Born(v, w, idx, parent, zi)
    ensures BlocksOk(w)
  {
    forall p | 0 <= p < |v.pools| ensures w.pools[p].blocks == v.pools[p].blocks {
      assert p == idx ==> v.pools[p].blocks == [];
    }
    TotalSame(v.pools, w.pools);
  }

  // ---------------------------------------------------------------- creation as a whole

  /** From `v` to `w` the pool `idx` was created in zone `zi` below `parent`, and nothing else changed. */
  ghost predicate Created(v: View, w: View, idx: int, parent: int, zi: int)
    requires Sizes(v) && Sizes(w)
  {
    && 0 <= idx < |w.pools| && |v.pools| <= |w.pools| && !Live(v, idx) && w.zoneTop == v.zoneTop && 0 <= zi <= v.zoneTop
    && w.liveN == v.liveN + 1 && w.bytesAll == v.bytesAll
    && w.shape.tables == v.shape.tables
    && w.shape.clock == v.shape.clock + 1 && w.shape.birth[idx] == v.shape.clock
    && (forall p | 0 <= p < |v.pools| && p != idx :: w.shape.birth[p] == v.shape.birth[p])
    && (forall p | 0 <= p < |v.pools| :: w.kind[p] == v.kind[p])
    && (forall p | |v.pools| <= p < |w.pools| :: w.kind[p] == 0 && (p != idx ==> !w.pools[p].live))
    && CreatedRecord(v, w.pools[idx], idx, parent, zi)
    && (forall p | 0 <= p < |v.pools| && p != idx ::
          w.pools[p] == if p == parent then v.pools[p].(firstChild := idx) else v.pools[p])
    && (forall z | 0 <= z <= v.zoneTop ::
          w.shape.zoneChains[z] == if z == zi then [idx] + v.shape.zoneChains[z] else v.shape.zoneChains[z])
    && (forall p | Live(v, p) ::
          w.shape.childChains[p] == if p == parent then [idx] + v.shape.childChains[p] else v.shape.childChains[p])
  }

  ghost predicate CreatedRecord(v: View, p: Pool, idx: int, parent: int, zi: int)
    requires Sizes(v) && 0 <= zi <= v.zoneTop
  {
    && p.live && p.parent == parent && p.zone == zi && p.color == v.zones[zi].color && p.blocks == [] && p.bytes == 0
    && p.generation == (if 0 <= idx < |v.pools| then v.pools[idx].generation else 0) + 1
  }

  lemma {:induction false} CreatedEvolves(v: View, w: View, idx: int, parent: int, zi: int)
    requires Sizes(v) && Sizes(w) && Created(v, w, idx, parent, zi)
    ensures Evolves(v, w)
  {
    forall p | 0 <= p < |v.pools| ensures PoolEvolves(v, w, p) {
    }
  }

  lemma {:induction false} ReusedIsCreated(v: View, u: View, w: View, idx: int, parent: int, zi: int)
    requires Inv(v) && v.freeHead == idx && 0 <= idx < |v.pools| && v.shape.freeChain != [] && u == PoppedFree(v)
    requires Reserved(u, idx) && 0 <= zi <= u.zoneTop && (parent < 0 || Live(u, parent))
    requires Born(u, w, idx, parent, zi)
    requires Sizes(w)
    ensures Created(v, w, idx, parent, zi)
  {
    forall p | 0 <= p < |v.pools| && p != idx
      ensures w.pools[p] == if p == parent then v.pools[p].(firstChild := idx) else v.pools[p]
    {
    }
  }

  /** What a growth looks like to the rest: the old slots are as they were, the first new one is unused. */
  ghost predicate GrownFrom(v: View, u: View)
    requires Sizes(v) && Sizes(u)
  {
    && |v.pools| < |u.pools| && u.pools[|v.pools|] == Unused()
    && (forall p | 0 <= p < |v.pools| :: u.pools[p] == v.pools[p] && u.kind[p] == v.kind[p])
    && (forall p | |v.pools| <= p < |u.pools| :: !u.pools[p].live && u.kind[p] == 0)
    && (forall p | 0 <= p < |v.pools| :: u.shape.childChains[p] == v.shape.childChains[p])
    && u.zones == v.zones && u.zoneTop == v.zoneTop && u.liveN == v.liveN && u.bytesAll == v.bytesAll
    && u.shape.zoneChains == v.shape.zoneChains && u.shape.tables == v.shape.tables
    && u.shape.clock == v.shape.clock && forall p | 0 <= p < |v.pools| :: u.shape.birth[p] == v.shape.birth[p]
  }

  lemma {:induction false} GrowthIsGrownFrom(v: View, u: View)
    requires Sizes(v) && Sizes(u) && u == Grown(v)
    ensures GrownFrom(v, u)
  {
  }

  lemma {:induction false} GrownIsCreated(v: View, u: View, w: View, parent: int, zi: int)
    requires Sizes(v) && Sizes(u) && Sizes(w) && GrownFrom(v, u)
    requires 0 <= zi <= u.zoneTop && (parent < 0 || Live(v, parent))
    requires Born(u, w, |v.pools|, parent, zi)
    ensures Created(v, w, |v.pools|, parent, zi)
  {
    forall p | Live(v, p)
      ensures w.shape.childChains[p] == if p == parent then [|v.pools|] + v.shape.childChains[p]
                else v.shape.childChains[p]
    {
    }
  }

  // ---------------------------------------------------------------- blocks

  /** The state with the blocks of one pool replaced, and the byte counts adjusted. */
  ghost function WithBlocks(v: View, rid: int, blocks: seq<Block>): View
    requires 0 <= rid < |v.pools|
  {
    v.(pools := v.pools[rid := v.pools[rid].(
         blocks := blocks,
         bytes := v.pools[rid].bytes - SumSizes(v.pools[rid].blocks) + SumSizes(blocks))],
       bytesAll := v.bytesAll - SumSizes(v.pools[rid].blocks) + SumSizes(blocks))
  }

  /** No pool owns a block at this address. */
  ghost predicate AddrUnowned(pools: seq<Pool>, addr: nat) {
    forall p, i | 0 <= p < |pools| && 0 <= i < |pools[p].blocks| :: pools[p].blocks[i].addr != addr
  }

  /** A block taken at one address leaves what nobody owned at any other as it was. */
  lemma {:induction false} TakenElsewhere(v: View, w: View, rid: int, b: Block)
    requires 0 <= rid < |v.pools| && w == WithBlocks(v, rid, [b] + v.pools[rid].blocks)
    ensures forall a: nat | AddrUnowned(v.pools, a) && a != b.addr :: AddrUnowned(w.pools, a)
  {
    forall a: nat | AddrUnowned(v.pools, a) && a != b.addr ensures AddrUnowned(w.pools, a) {
      forall p, i | 0 <= p < |w.pools| && 0 <= i < |w.pools[p].blocks| ensures w.pools[p].blocks[i].addr != a {
        assert p == rid && i > 0 ==> w.pools[p].blocks[i] == v.pools[rid].blocks[i - 1];
      }
    }
  }

  lemma {:induction false} BlocksKeepInv(v: View, rid: int, blocks: seq<Block>)
    requires Inv(v) && Live(v, rid) && OwnedOnce(WithBlocks(v, rid, blocks).pools)
    ensures Inv(WithBlocks(v, rid, blocks))
  {
    var w := WithBlocks(v, rid, blocks);
    assert SameChains(v, w) by {
      forall p | 0 <= p < |v.pools| ensures SameLinks(v.pools[p], w.pools[p]) {
        assert Live(v, p) ==> PoolOk(v, p);
      }
    }
    TotalUpdate(v.pools, w.pools, rid);
    SameChainsKeepInv(v, w);
  }

  /** No other pool owns a block at this address. */
  ghost predicate NotElsewhere(pools: seq<Pool>, rid: int, addr: nat) {
    forall p, i | 0 <= p < |pools| && p != rid && 0 <= i < |pools[p].blocks| :: pools[p].blocks[i].addr != addr
  }

  /** One pool's new list is fine when its addresses are distinct and none belongs to another pool. */
  lemma {:induction false} ReplacedOwnedOnce(v: View, rid: int, blocks: seq<Block>)
    requires OwnedOnce(v.pools) && 0 <= rid < |v.pools|
    requires forall i, j | 0 <= i < j < |blocks| :: blocks[i].addr != blocks[j].addr
    requires forall i | 0 <= i < |blocks| :: NotElsewhere(v.pools, rid, blocks[i].addr)
    ensures OwnedOnce(WithBlocks(v, rid, blocks).pools)
  {
    var w := WithBlocks(v, rid, blocks);
    forall p | 0 <= p < |w.pools| ensures w.pools[p].blocks == if p == rid then blocks else v.pools[p].blocks {}
    forall i | 0 <= i < |blocks| ensures NotElsewhere(w.pools, rid, blocks[i].addr) {
      assert NotElsewhere(v.pools, rid, blocks[i].addr);
    }
  }

  lemma {:induction false} OwnBlockNotElsewhere(pools: seq<Pool>, rid: int, i: nat)
    requires OwnedOnce(pools) && 0 <= rid < |pools| && i < |pools[rid].blocks|
    ensures NotElsewhere(pools, rid, pools[rid].blocks[i].addr)
  {
  }

  lemma {:induction false} SumSplit(xs: seq<Block>, ys: seq<Block>)
    ensures SumSizes(xs + ys) == SumSizes(xs) + SumSizes(ys)
  {
    if xs == [] {
      assert xs + ys == ys;
    } else {
      assert (xs + ys)[1..] == xs[1..] + ys;
      SumSplit(xs[1..], ys);
    }
  }

  lemma {:induction false} SumAt(blocks: seq<Block>, i: nat, b: Block)
    requires i < |blocks|
    ensures SumSizes(blocks[..i] + blocks[i + 1..]) == SumSizes(blocks) - blocks[i].size
    ensures SumSizes(blocks[i := b]) == SumSizes(blocks) - blocks[i].size + b.size
  {
    SumSplit(blocks[..i], blocks[i + 1..]);
    SumSplit(blocks[..i], [blocks[i]] + blocks[i + 1..]);
    SumSplit(blocks[..i], [b] + blocks[i + 1..]);
    assert blocks == blocks[..i] + ([blocks[i]] + blocks[i + 1..]);
    assert blocks[i := b] == blocks[..i] + ([b] + blocks[i + 1..]);
  }

  lemma {:induction false} BlocksEvolve(v: View, rid: int, blocks: seq<Block>)
    requires |v.kind| == |v.pools| && 0 <= rid < |v.pools|
    requires v.kind[rid] == 1 ==> forall b | b in v.pools[rid].blocks :: b in blocks
    ensures Evolves(v, WithBlocks(v, rid, blocks))
  {
    var w := WithBlocks(v, rid, blocks);
    forall p | 0 <= p < |v.pools| ensures PoolEvolves(v, w, p) {}
  }

  // ---------------------------------------------------------------- what growth costs

  /**
   Only one slot of each growth is ever used: the table's size is the capacity after as many
   growths as there are slots live or free, and all the others are dead for good.
   */
  lemma {:induction false} GrowthWastesSlots(v: View)
    requires Inv(v)
    ensures |v.pools| == Capacity(v.liveN + |v.shape.freeChain|)
    ensures (forall p | 0 <= p < |v.pools| :: v.pools[p].live || p in v.shape.freeChain) <==> v.pools == []
  {
    CapacityStep(v.shape.growths);
    CapacityBeyond(v.shape.growths);
    if forall p | 0 <= p < |v.pools| :: v.pools[p].live || p in v.shape.freeChain {
      AllInUse(v.pools, v.shape.freeChain);
    }
  }

  lemma {:induction false} AllInUse(pools: seq<Pool>, chain: seq<int>)
    requires NoDup(chain) && forall p | 0 <= p < |pools| :: pools[p].live || p in chain
    ensures |pools| <= |LiveSet(pools)| + |chain|
  {
    ChainSize(chain);
    assert Upto(|pools|) <= LiveSet(pools) + (set p | p in chain);
    UnionSize(LiveSet(pools), (set p | p in chain), Upto(|pools|));
  }

  lemma {:induction false} UnionSize(a: set<int>, b: set<int>, c: set<int>)
    requires c <= a + b
    ensures |c| <= |a| + |b|
  {
    assert a + b == a + (b - a);
    assert b == (b - a) + (a * b);
    assert a + b == c + (a + b - c);
  }

  lemma {:induction false} ChainSize(chain: seq<int>)
    requires NoDup(chain)
    ensures |set p | p in chain| == |chain|
  {
    if chain != [] {
      ChainSize(chain[1..]);
      assert (set p | p in chain) == {chain[0]} + set p | p in chain[1..];
    }
  }

  lemma {:induction false} CapacityBeyond(growths: nat)
    ensures growths > 0 ==> Capacity(growths) > growths
  {
    if growths > 1 {
      CapacityBeyond(growths - 1);
    }
  }

  /** Creation hands out no block. */
  lemma {:induction false} CreatedOwnsNothing(v: View, w: View, idx: int, parent: int, zi: int, addr: nat)
    requires Sizes(v) && Inv(w) && Created(v, w, idx, parent, zi) && AddrUnowned(v.pools, addr)
    ensures AddrUnowned(w.pools, addr)
  {
    forall p, i | 0 <= p < |w.pools| && 0 <= i < |w.pools[p].blocks| ensures w.pools[p].blocks[i].addr != addr {
      assert w.pools[p].blocks == if p < |v.pools| && p != idx then v.pools[p].blocks else [];
    }
  }
}
