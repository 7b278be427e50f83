/**
 The state of the pool registry: the pool table, the zone stack, and the three kinds of
 intrusive chains threaded through the table (each zone's pools, each pool's children, and
 the free slots).  `Inv` is what holds between operations.
 */
module PoolState {
  import opened Chains

  /** A block a pool owns: its address and its size. */
  datatype Block = Block(addr: nat, size: int)

  datatype Pool = Pool(generation: nat, parent: int, zone: int,
                       firstChild: int, nextSibling: int, zoneNext: int, freeNext: int,
                       live: bool, color: int, blocks: seq<Block>, bytes: int)

  datatype Zone = Zone(firstPool: int, parent: int, color: int)

  datatype Link = ZoneLink | ChildLink | FreeLink

  function Next(p: Pool, k: Link): int {
    match k
    case ZoneLink => p.zoneNext
    case ChildLink => p.nextSibling
    case FreeLink => p.freeNext
  }

  /**
   The bookkeeping behind the links: the chains they spell out, the order in which live pools
   were created, how often the table has grown, and the slots that have ever been object tables.
   */
  datatype Shape = Shape(zoneChains: seq<seq<int>>, childChains: seq<seq<int>>, freeChain: seq<int>,
                         birth: seq<nat>, clock: nat, growths: nat, tables: set<int>)

  datatype View = View(pools: seq<Pool>, liveN: int, freeHead: int, bytesAll: int, kind: seq<nat>,
                       zones: seq<Zone>, zoneTop: int, shape: Shape)

  // ---------------------------------------------------------------- the invariant

  ghost predicate Linked(pools: seq<Pool>, k: Link, head: int, chain: seq<int>) {
    && head == At(chain, 0)
    && (forall i | 0 <= i < |chain| :: 0 <= chain[i] < |pools|)
    && forall i {:trigger Next(pools[chain[i]], k)} | 0 <= i < |chain| :: Next(pools[chain[i]], k) == At(chain, i + 1)
  }

  /** Youngest first. */
  ghost predicate Descending(birth: seq<nat>, chain: seq<int>) {
    && (forall i | 0 <= i < |chain| :: 0 <= chain[i] < |birth|)
    && forall i, j | 0 <= i < j < |chain| :: birth[chain[i]] > birth[chain[j]]
  }

  predicate Live(v: View, p: int) {
    0 <= p < |v.pools| && v.pools[p].live
  }

  ghost predicate Sizes(v: View) {
    && |v.shape.childChains| == |v.shape.birth| == |v.kind| == |v.pools|
    && -1 <= v.zoneTop < |v.zones|
    && |v.shape.zoneChains| == v.zoneTop + 1
  }

  ghost predicate ZoneOk(v: View, z: int)
    requires Sizes(v) && 0 <= z <= v.zoneTop
  {
    var chain := v.shape.zoneChains[z];
    && v.zones[z].parent == z - 1 && 1 <= v.zones[z].color <= 7
    && Linked(v.pools, ZoneLink, v.zones[z].firstPool, chain)
    && Descending(v.shape.birth, chain)
    && forall x | x in chain :: Live(v, x) && v.pools[x].zone == z
  }

  ghost predicate ChildrenOk(v: View, p: int)
    requires Sizes(v) && Live(v, p)
  {
    var chain := v.shape.childChains[p];
    && Linked(v.pools, ChildLink, v.pools[p].firstChild, chain)
    && Descending(v.shape.birth, chain)
    && forall x | x in chain :: Live(v, x) && v.pools[x].parent == p
  }

  /** A live pool is on its zone's chain and on its parent's, and is younger than its parent. */
  ghost predicate PoolOk(v: View, p: int)
    requires Sizes(v) && Live(v, p)
  {
    var pool := v.pools[p];
    && 0 <= pool.zone <= v.zoneTop && p in v.shape.zoneChains[pool.zone]
    && pool.color == v.zones[pool.zone].color
    && pool.generation >= 1 && v.shape.birth[p] < v.shape.clock
    && (pool.parent < 0 || ParentOk(v, p, pool.parent))
  }

  ghost predicate ParentOk(v: View, p: int, parent: int)
    requires Sizes(v) && Live(v, p)
  {
    Live(v, parent) && p in v.shape.childChains[parent] && v.shape.birth[parent] < v.shape.birth[p]
  }

  /** The kind byte of a slot is set exactly if the slot has been an object table at some time. */
  ghost predicate KindOk(v: View)
    requires |v.kind| == |v.pools|
  {
    && (forall p | p in v.shape.tables :: 0 <= p < |v.pools|)
    && forall p | 0 <= p < |v.pools| :: v.kind[p] == if p in v.shape.tables then 1 else 0
  }

  ghost predicate FreeOk(v: View) {
    && Linked(v.pools, FreeLink, v.freeHead, v.shape.freeChain)
    && NoDup(v.shape.freeChain)
    && forall x | x in v.shape.freeChain :: !Live(v, x)
  }

  function SumSizes(blocks: seq<Block>): int {
    if blocks == [] then 0 else blocks[0].size + SumSizes(blocks[1..])
  }

  function TotalBytes(pools: seq<Pool>): int {
    if pools == [] then 0 else TotalBytes(pools[..|pools| - 1]) + SumSizes(pools[|pools| - 1].blocks)
  }

  ghost predicate BlocksOk(v: View) {
    && v.bytesAll == TotalBytes(v.pools)
    && (forall p | 0 <= p < |v.pools| :: v.pools[p].bytes == SumSizes(v.pools[p].blocks))
    && (forall p | 0 <= p < |v.pools| :: !v.pools[p].live ==> v.pools[p].blocks == [])
    && OwnedOnce(v.pools)
  }

  /** No address is owned by two pools, or twice by one. */
  ghost predicate OwnedOnce(pools: seq<Pool>) {
    forall p, i, q, j | 0 <= p < |pools| && 0 <= i < |pools[p].blocks| && 0 <= q < |pools|
                        && 0 <= j < |pools[q].blocks| ::
      pools[p].blocks[i].addr == pools[q].blocks[j].addr ==> p == q && i == j
  }

  function LiveSet(pools: seq<Pool>): set<int> {
    set p | 0 <= p < |pools| && pools[p].live
  }

  /** Table capacity after a number of growths: 64 slots, then doubling. */
  function Capacity(growths: nat): nat {
    if growths == 0 then 0
    else if growths == 1 then 64
    else 2 * Capacity(growths - 1)
  }

  /**
   Each growth has put exactly one slot to use, `reserved` of them being neither live nor free
   at the moment.
   */
  ghost predicate CountsOk(v: View, reserved: nat) {
    && v.liveN == |LiveSet(v.pools)|
    && v.liveN + |v.shape.freeChain| + reserved == v.shape.growths
    && |v.pools| == Capacity(v.shape.growths)
  }

  ghost predicate Inv(v: View) {
    Core(v) && CountsOk(v, 0)
  }

  ghost predicate Core(v: View) {
    && Sizes(v)
    && (forall z {:trigger ZoneOk(v, z)} | 0 <= z <= v.zoneTop :: ZoneOk(v, z))
    && (forall p {:trigger ChildrenOk(v, p)} | Live(v, p) :: ChildrenOk(v, p))
    && (forall p {:trigger PoolOk(v, p)} | Live(v, p) :: PoolOk(v, p))
    && FreeOk(v) && BlocksOk(v) && KindOk(v)
  }

  lemma {:induction false} DescendingNoDup(birth: seq<nat>, chain: seq<int>)
    requires Descending(birth, chain)
    ensures NoDup(chain)
  {
    forall i, j | 0 <= i < j < |chain| ensures chain[i] != chain[j] {
      assert birth[chain[i]] > birth[chain[j]];
    }
  }

  // ---------------------------------------------------------------- the tree below a pool

  /** Pool `x` is `r` or one of its descendants; birth stamps bound the walk up. */
  ghost predicate Under(pools: seq<Pool>, birth: seq<nat>, x: int, r: int)
    requires |birth| == |pools|
    decreases if 0 <= x < |birth| then birth[x] else 0
  {
    || x == r
    || (&& 0 <= x < |pools|
        && 0 <= pools[x].parent < |pools| && birth[pools[x].parent] < birth[x]
        && Under(pools, birth, pools[x].parent, r))
  }

  /** The live pools that are `r` or nested, at any depth, in `r`. */
  ghost function Tree(v: View, r: int): set<int>
    requires Sizes(v)
  {
    set x | 0 <= x < |v.pools| && v.pools[x].live && Under(v.pools, v.shape.birth, x, r)
  }

  lemma {:induction false} UnderIsYounger(pools: seq<Pool>, birth: seq<nat>, x: int, r: int)
    requires |birth| == |pools| && 0 <= x < |pools| && 0 <= r < |pools|
    requires Under(pools, birth, x, r)
    ensures x == r || birth[r] < birth[x]
    decreases birth[x]
  {
    if x != r {
      UnderIsYounger(pools, birth, pools[x].parent, r);
    }
  }

  lemma {:induction false} UnderTrans(pools: seq<Pool>, birth: seq<nat>, x: int, y: int, r: int)
    requires |birth| == |pools|
    requires Under(pools, birth, x, y) && Under(pools, birth, y, r)
    ensures Under(pools, birth, x, r)
    decreases if 0 <= x < |birth| then birth[x] else 0
  {
    if x != y {
      UnderTrans(pools, birth, pools[x].parent, y, r);
    }
  }

  /** Below `r`, every proper descendant is below one of the children on `r`'s chain. */
  lemma {:induction false} UnderAChild(v: View, x: int, r: int) returns (c: int)
    requires Inv(v) && Live(v, x) && Live(v, r) && x != r && Under(v.pools, v.shape.birth, x, r)
    ensures c in v.shape.childChains[r] && Live(v, c) && Under(v.pools, v.shape.birth, x, c)
    decreases v.shape.birth[x]
  {
    var p := v.pools[x].parent;
    assert PoolOk(v, x);
    if p == r {
      c := x;
    } else {
      c := UnderAChild(v, p, r);
      assert Under(v.pools, v.shape.birth, x, p);
      UnderTrans(v.pools, v.shape.birth, x, p, c);
    }
  }

  // ---------------------------------------------------------------- what dropping does

  /** Two records of a pool that differ at most in its place on the live chains. */
  predicate Kept(a: Pool, b: Pool) {
    b == a.(firstChild := b.firstChild, nextSibling := b.nextSibling, zoneNext := b.zoneNext)
  }

  /** The free chain afterwards starts with the slots of `d`, in some order, and then is what it was. */
  ghost predicate FreedInto(before: seq<int>, after: seq<int>, d: set<int>) {
    && |after| >= |before|
    && after[|after| - |before|..] == before
    && forall x :: x in after[..|after| - |before|] <==> x in d
  }

  /**
   From `v` to `w` exactly the pools in `d` were killed: every other record is kept, every
   surviving chain lost the members of `d` and nothing else, and the freed slots are on the
   free chain.  Zones may have been popped.
   */
  ghost predicate Killed(v: View, w: View, d: set<int>)
    requires Sizes(v) && Sizes(w)
  {
    && |w.pools| == |v.pools| && w.kind == v.kind
    && |w.zones| == |v.zones| && w.zoneTop <= v.zoneTop
    && w.shape.birth == v.shape.birth && w.shape.clock == v.shape.clock && w.shape.growths == v.shape.growths
    && w.shape.tables == v.shape.tables
    && (forall x | x in d :: Live(v, x) && !Live(w, x) && w.pools[x].generation == v.pools[x].generation)
    && (forall x | 0 <= x < |v.pools| && x !in d :: Kept(v.pools[x], w.pools[x]))
    && (forall z | 0 <= z < |v.zones| :: w.zones[z].color == v.zones[z].color && w.zones[z].parent == v.zones[z].parent)
    && (forall z | 0 <= z <= w.zoneTop :: w.shape.zoneChains[z] == Without(v.shape.zoneChains[z], d))
    && (forall p | Live(w, p) :: w.shape.childChains[p] == Without(v.shape.childChains[p], d))
    && FreedInto(v.shape.freeChain, w.shape.freeChain, d)
  }

  lemma {:induction false} KilledNothing(v: View)
    requires Sizes(v)
    ensures Killed(v, v, {})
  {
    forall z | 0 <= z <= v.zoneTop ensures v.shape.zoneChains[z] == Without(v.shape.zoneChains[z], {}) {
      WithoutNone(v.shape.zoneChains[z], {});
    }
    forall p | Live(v, p) ensures v.shape.childChains[p] == Without(v.shape.childChains[p], {}) {
      WithoutNone(v.shape.childChains[p], {});
    }
  }

  lemma {:induction false} FreedIntoTrans(a: seq<int>, b: seq<int>, c: seq<int>, d: set<int>, e: set<int>)
    requires FreedInto(a, b, d) && FreedInto(b, c, e)
    ensures FreedInto(a, c, d + e)
  {
    var ab, bc := b[..|b| - |a|], c[..|c| - |b|];
    assert b == ab + a && c == bc + b;
    assert c == (bc + ab) + a;
    assert c[..|c| - |a|] == bc + ab;
    assert forall x :: x in bc + ab <==> x in bc || x in ab;
  }

  lemma {:induction false} KilledTrans(u: View, v: View, w: View, d: set<int>, e: set<int>)
    requires Sizes(u) && Sizes(v) && Sizes(w)
    requires Killed(u, v, d) && Killed(v, w, e)
    ensures Killed(u, w, d + e)
  {
    forall x | x in d + e
      ensures Live(u, x) && !Live(w, x) && w.pools[x].generation == u.pools[x].generation
    {
      if x in d {
        assert x !in e;
        assert Kept(v.pools[x], w.pools[x]);
      } else {
        assert Kept(u.pools[x], v.pools[x]);
      }
    }
    forall x | 0 <= x < |u.pools| && x !in d + e ensures Kept(u.pools[x], w.pools[x]) {
      assert Kept(u.pools[x], v.pools[x]) && Kept(v.pools[x], w.pools[x]);
    }
    forall z | 0 <= z <= w.zoneTop ensures w.shape.zoneChains[z] == Without(u.shape.zoneChains[z], d + e) {
      WithoutTwice(u.shape.zoneChains[z], d, e);
    }
    forall p | Live(w, p) ensures w.shape.childChains[p] == Without(u.shape.childChains[p], d + e) {
      assert p !in e && Kept(v.pools[p], w.pools[p]);
      WithoutTwice(u.shape.childChains[p], d, e);
    }
    FreedIntoTrans(u.shape.freeChain, v.shape.freeChain, w.shape.freeChain, d, e);
  }

  /** Survivors keep their ancestors, so a survivor's tree is what is left of it. */
  lemma {:induction false} UnderSurvives(v: View, w: View, d: set<int>, x: int, r: int)
    requires Inv(v) && Inv(w) && Killed(v, w, d) && Live(w, x)
    ensures Under(w.pools, w.shape.birth, x, r) <==> Under(v.pools, v.shape.birth, x, r)
    decreases v.shape.birth[x]
  {
    assert x !in d && Kept(v.pools[x], w.pools[x]);
    assert PoolOk(w, x);
    if x != r && w.pools[x].parent >= 0 {
      UnderSurvives(v, w, d, w.pools[x].parent, r);
    }
  }

  lemma {:induction false} TreeSurvives(v: View, w: View, d: set<int>, r: int)
    requires Inv(v) && Inv(w) && Killed(v, w, d)
    ensures Tree(w, r) == Tree(v, r) - d
  {
    forall x ensures x in Tree(w, r) <==> x in Tree(v, r) - d {
      if Live(w, x) {
        UnderSurvives(v, w, d, x, r);
        assert x !in d && Kept(v.pools[x], w.pools[x]);
      }
    }
  }

  /** A child is in its parent's tree, with all of its own. */
  lemma {:induction false} ChildTree(v: View, c: int, r: int)
    requires Inv(v) && Live(v, r) && c in v.shape.childChains[r]
    ensures Live(v, c) && v.pools[c].parent == r && v.shape.birth[r] < v.shape.birth[c]
    ensures Tree(v, c) <= Tree(v, r) && c in Tree(v, c) && r !in Tree(v, c)
    ensures forall o | o in v.shape.childChains[r] :: o in Tree(v, c) ==> o == c
  {
    assert ChildrenOk(v, r);
    assert PoolOk(v, c);
    forall x | x in Tree(v, c) ensures x in Tree(v, r) && x != r {
      assert Under(v.pools, v.shape.birth, c, r);
      UnderTrans(v.pools, v.shape.birth, x, c, r);
      UnderIsYounger(v.pools, v.shape.birth, x, c);
    }
    forall o | o in v.shape.childChains[r] && o in Tree(v, c) ensures o == c {
      if o != c {
        UnderIsYounger(v.pools, v.shape.birth, v.pools[o].parent, c);
      }
    }
  }

  /** Half a tree does not outlive its root: a live pool's ancestors are alive. */
  lemma {:induction false} AncestorsLive(v: View, x: int, r: int)
    requires Inv(v) && Live(v, x) && Under(v.pools, v.shape.birth, x, r)
    ensures Live(v, r)
    decreases v.shape.birth[x]
  {
    if x != r {
      assert PoolOk(v, x);
      AncestorsLive(v, v.pools[x].parent, r);
    }
  }

  // ---------------------------------------------------------------- how pools may evolve

  /** Pool `pid` owns a block at this address. */
  ghost predicate OwnsAddr(v: View, pid: int, addr: nat) {
    0 <= pid < |v.pools| && exists b | b in v.pools[pid].blocks :: b.addr == addr
  }

  /**
   What any run of registry operations does to pools seen from outside: generations only rise, a
   dead pool comes back only with a higher one, an object table stays one, and as long as a table
   lives in one generation it keeps the blocks it has.
   */
  ghost predicate Evolves(v: View, w: View)
    requires |v.kind| == |v.pools| && |w.kind| == |w.pools|
  {
    && |v.pools| <= |w.pools|
    && forall p | 0 <= p < |v.pools| :: PoolEvolves(v, w, p)
  }

  ghost predicate PoolEvolves(v: View, w: View, p: int)
    requires |v.kind| == |v.pools| && |w.kind| == |w.pools| && 0 <= p < |v.pools| <= |w.pools|
  {
    && v.pools[p].generation <= w.pools[p].generation
    && (v.kind[p] == 1 ==> w.kind[p] == 1)
    && (!v.pools[p].live && w.pools[p].live ==> v.pools[p].generation < w.pools[p].generation)
    && (v.pools[p].live && w.pools[p].live && v.pools[p].generation == w.pools[p].generation && v.kind[p] == 1 ==>
          forall b | b in v.pools[p].blocks :: b in w.pools[p].blocks)
  }

  lemma {:induction false} EvolvesTrans(u: View, v: View, w: View)
    requires |u.kind| == |u.pools| && |v.kind| == |v.pools| && |w.kind| == |w.pools|
    requires Evolves(u, v) && Evolves(v, w)
    ensures Evolves(u, w)
  {
    forall p | 0 <= p < |u.pools| ensures PoolEvolves(u, w, p) {
      assert PoolEvolves(u, v, p) && PoolEvolves(v, w, p);
    }
  }

  lemma {:induction false} KilledEvolves(v: View, w: View, d: set<int>)
    requires Sizes(v) && Sizes(w) && Killed(v, w, d)
    ensures Evolves(v, w)
  {
    forall p | 0 <= p < |v.pools| ensures PoolEvolves(v, w, p) {
      if p !in d {
        assert Kept(v.pools[p], w.pools[p]);
      }
    }
  }

  lemma {:induction false} SameEvolves(v: View, w: View)
    requires |v.kind| == |v.pools| && w.pools == v.pools && w.kind == v.kind
    ensures Evolves(v, w)
  {
    forall p | 0 <= p < |v.pools| ensures PoolEvolves(v, w, p) {
    }
  }

  /**
   Once a pool is gone its generation is past: the slot may live again, but never in that generation.
   So whoever remembers the generation can tell that the blocks it had are freed.
   */
  lemma {:induction false} DroppedIsPast(u: View, v: View, w: View, p: int)
    requires |u.kind| == |u.pools| && |v.kind| == |v.pools| && |w.kind| == |w.pools|
    requires Evolves(u, v) && Evolves(v, w) && Live(u, p) && !Live(v, p)
    ensures Live(w, p) ==> w.pools[p].generation > u.pools[p].generation
  {
    assert PoolEvolves(u, v, p) && PoolEvolves(v, w, p);
  }
}
