/**
 Taking one childless pool out of the registry: off its parent's chain, off its zone's chain,
 and onto the free chain.  Links that named it are redirected to its successor; when the three
 steps are done the invariant is back and exactly that pool is gone.
 */
module PoolSurgery {
  import opened Chains
  import opened PoolState

  // ---------------------------------------------------------------- redirecting a chain

  /** What becomes of a link that may name `x`. */
  function Redirect(link: int, x: int, next: int): int {
    if link == x then next else link
  }

  lemma {:induction false} LinkedCons(pools: seq<Pool>, k: Link, head: int, chain: seq<int>)
    requires chain != []
    ensures Linked(pools, k, head, chain) <==>
            && head == chain[0] && 0 <= head < |pools|
            && Linked(pools, k, Next(pools[head], k), chain[1..])
  {
    if Linked(pools, k, head, chain) {
      assert Next(pools[chain[0]], k) == At(chain, 1) == At(chain[1..], 0);
      forall i | 0 <= i < |chain[1..]|
        ensures 0 <= chain[1..][i] < |pools| && Next(pools[chain[1..][i]], k) == At(chain[1..], i + 1)
      {
        assert chain[1..][i] == chain[i + 1] && At(chain[1..], i + 1) == At(chain, i + 2);
      }
    }
    if head == chain[0] && 0 <= head < |pools| && Linked(pools, k, Next(pools[head], k), chain[1..]) {
      forall i | 0 <= i < |chain|
        ensures 0 <= chain[i] < |pools| && Next(pools[chain[i]], k) == At(chain, i + 1)
      {
        if i > 0 {
          assert chain[i] == chain[1..][i - 1] && At(chain[1..], i) == At(chain, i + 1);
        }
      }
    }
  }

  /** From `pools` to `pools'`, the links of the chain's members other than `x` bypass `x`. */
  ghost predicate Bypassed(pools: seq<Pool>, pools': seq<Pool>, k: Link, chain: seq<int>, x: int) {
    && 0 <= x < |pools| == |pools'|
    && forall y | y in chain && 0 <= y < |pools| && y != x ::
         Next(pools'[y], k) == Redirect(Next(pools[y], k), x, Next(pools[x], k))
  }

  /** Redirecting the links of a chain around its member `x` takes `x` off it. */
  lemma {:induction false} LinkedRedirect(pools: seq<Pool>, pools': seq<Pool>, k: Link, head: int, chain: seq<int>,
          x: int)
    requires Linked(pools, k, head, chain) && NoDup(chain) && Bypassed(pools, pools', k, chain, x)
    ensures Linked(pools', k, Redirect(head, x, Next(pools[x], k)), Without(chain, {x}))
  {
    if x in chain {
      var i :| 0 <= i < |chain| && chain[i] == x;
      WithoutOne(chain, i);
      var cut := chain[..i] + chain[i + 1..];
      var next := Next(pools[x], k);
      assert next == At(chain, i + 1);
      assert Redirect(head, x, next) == At(cut, 0);
      forall c | 0 <= c < |cut| ensures 0 <= cut[c] < |pools'| && Next(pools'[cut[c]], k) == At(cut, c + 1) {
        var o := if c < i then c else c + 1;
        assert cut[c] == chain[o] && chain[o] in chain && o < |chain|;
        assert Next(pools[chain[o]], k) == At(chain, o + 1);
        LinkPastCut(chain, i, o, x);
      }
    } else {
      WithoutNone(chain, {x});
      LinkedElsewhere(pools, pools', k, head, chain, x);
    }
  }

  lemma {:induction false} LinkPastCut(chain: seq<int>, i: nat, o: nat, x: int)
    requires NoDup(chain) && i < |chain| && chain[i] == x && o < |chain| && o != i && x >= 0
    ensures var cut := chain[..i] + chain[i + 1..];
            Redirect(At(chain, o + 1), x, At(chain, i + 1)) == At(cut, if o < i then o + 1 else o)
  {
  }

  /** A chain that never mentions `x` is not affected by the redirection. */
  lemma {:induction false} LinkedElsewhere(pools: seq<Pool>, pools': seq<Pool>, k: Link, head: int, chain: seq<int>,
          x: int)
    requires Linked(pools, k, head, chain) && |pools'| == |pools| && x !in chain && x >= 0
    requires forall y | y in chain && 0 <= y < |pools| ::
               Next(pools'[y], k) == Next(pools[y], k) || Next(pools[y], k) == x
    ensures Linked(pools', k, head, chain)
  {
    forall i | 0 <= i < |chain| ensures Next(pools'[chain[i]], k) == At(chain, i + 1) {
      assert chain[i] in chain;
      if i + 1 < |chain| {
        assert chain[i + 1] in chain;
      }
    }
  }

  lemma {:induction false} LinkedElsewhereSame(pools: seq<Pool>, pools': seq<Pool>, k: Link, head: int, chain: seq<int>)
    requires Linked(pools, k, head, chain) && |pools'| == |pools|
    requires forall y | y in chain && 0 <= y < |pools| :: Next(pools'[y], k) == Next(pools[y], k)
    ensures Linked(pools', k, head, chain)
  {
    forall i | 0 <= i < |chain| ensures Next(pools'[chain[i]], k) == At(chain, i + 1) {
      assert chain[i] in chain;
    }
  }

  lemma {:induction false} DescendingWithout(birth: seq<nat>, chain: seq<int>, d: set<int>)
    requires Descending(birth, chain)
    ensures Descending(birth, Without(chain, d))
  {
    if chain != [] {
      DescendingWithout(birth, chain[1..], d);
      var first, rest := chain[0], Without(chain[1..], d);
      forall i | 0 <= i < |rest| ensures birth[first] > birth[rest[i]] {
        WithoutMember(chain[1..], d, rest[i]);
        var j :| 0 <= j < |chain[1..]| && chain[1..][j] == rest[i];
        assert birth[chain[0]] > birth[chain[j + 1]];
      }
    }
  }

  // ---------------------------------------------------------------- sums

  lemma {:induction false} TotalSame(pools: seq<Pool>, pools': seq<Pool>)
    requires |pools| == |pools'| && forall p | 0 <= p < |pools| :: pools'[p].blocks == pools[p].blocks
    ensures TotalBytes(pools') == TotalBytes(pools)
  {
    if pools != [] {
      var n := |pools| - 1;
      TotalSame(pools[..n], pools'[..n]);
    }
  }

  /** Changing one pool's blocks changes the total by the difference. */
  lemma {:induction false} TotalUpdate(pools: seq<Pool>, pools': seq<Pool>, x: int)
    requires 0 <= x < |pools| == |pools'|
    requires forall p | 0 <= p < |pools| && p != x :: pools'[p].blocks == pools[p].blocks
    ensures TotalBytes(pools') == TotalBytes(pools) - SumSizes(pools[x].blocks) + SumSizes(pools'[x].blocks)
  {
    var n := |pools| - 1;
    if x == n {
      TotalSame(pools[..n], pools'[..n]);
    } else {
      TotalUpdate(pools[..n], pools'[..n], x);
    }
  }

  // ---------------------------------------------------------------- the detachment

  /** The chain `x` shares with its siblings; none when it has no parent. */
  ghost function Siblings(v: View, x: int): seq<int>
    requires Sizes(v) && Live(v, x)
  {
    if 0 <= v.pools[x].parent < |v.shape.childChains| then v.shape.childChains[v.pools[x].parent] else []
  }

  ghost function ZoneMates(v: View, x: int): seq<int>
    requires Sizes(v) && Live(v, x)
  {
    if 0 <= v.pools[x].zone <= v.zoneTop then v.shape.zoneChains[v.pools[x].zone] else []
  }

  function Freed(p: Pool, freeHead: int): Pool {
    p.(live := false, parent := -1, firstChild := -1, freeNext := freeHead, blocks := [], bytes := 0)
  }

  /** How the record of another pool `p` changes when `x` is taken off the chains. */
  ghost function Rewired(v: View, x: int, p: int): Pool
    requires Sizes(v) && Live(v, x) && 0 <= p < |v.pools|
  {
    var o, r := v.pools[p], v.pools[x];
    o.(firstChild := if p == r.parent then Redirect(o.firstChild, x, r.nextSibling) else o.firstChild,
       nextSibling := if p in Siblings(v, x) then Redirect(o.nextSibling, x, r.nextSibling) else o.nextSibling,
       zoneNext := if p in ZoneMates(v, x) then Redirect(o.zoneNext, x, r.zoneNext) else o.zoneNext)
  }

  /** From `v` to `w`, pool `x` was unlinked from its parent and its zone, and freed. */
  ghost predicate Detached(v: View, w: View, x: int)
    requires Sizes(v) && Live(v, x)
  {
    var r := v.pools[x];
    && |w.pools| == |v.pools| && w.kind == v.kind && |w.zones| == |v.zones| && w.zoneTop == v.zoneTop
    && (forall p | 0 <= p < |v.pools| && p != x :: w.pools[p] == Rewired(v, x, p))
    && Freed(r, v.freeHead) == w.pools[x].(nextSibling := r.nextSibling, zoneNext := r.zoneNext)
    && (forall z | 0 <= z < |v.zones| ::
          w.zones[z] == if z == r.zone
            then v.zones[z].(firstPool := Redirect(v.zones[z].firstPool, x, r.zoneNext))
            else v.zones[z])
    && w.freeHead == x && w.liveN == v.liveN - 1 && w.bytesAll == v.bytesAll - SumSizes(r.blocks)
    && DetachedShape(v, w, x)
  }

  ghost predicate DetachedShape(v: View, w: View, x: int)
    requires Sizes(v)
  {
    && w.shape.birth == v.shape.birth && w.shape.clock == v.shape.clock && w.shape.growths == v.shape.growths
    && w.shape.tables == v.shape.tables
    && w.shape.freeChain == [x] + v.shape.freeChain
    && |w.shape.zoneChains| == |v.shape.zoneChains| && |w.shape.childChains| == |v.shape.childChains|
    && (forall z | 0 <= z <= v.zoneTop :: w.shape.zoneChains[z] == Without(v.shape.zoneChains[z], {x}))
    && (forall p | 0 <= p < |v.pools| :: w.shape.childChains[p] == Without(v.shape.childChains[p], {x}))
  }

  /** The effect of unlinking `x` from the child chain it is on. */
  ghost predicate ChildUnlinked(pools: seq<Pool>, pools': seq<Pool>, x: int, chain: seq<int>)
    requires 0 <= x < |pools|
  {
    && |pools'| == |pools|
    && forall p | 0 <= p < |pools| ::
         pools'[p] == pools[p].(
           firstChild := if p == pools[x].parent then Redirect(pools[p].firstChild, x, pools[x].nextSibling)
             else pools[p].firstChild,
           nextSibling := if p in chain then Redirect(pools[p].nextSibling, x, pools[x].nextSibling)
             else pools[p].nextSibling)
  }

  /** The effect of unlinking `x` from its zone's chain. */
  ghost predicate ZoneUnlinked(pools: seq<Pool>, zones: seq<Zone>, pools': seq<Pool>, zones': seq<Zone>, x: int,
          chain: seq<int>)
    requires 0 <= x < |pools|
  {
    && |pools'| == |pools| && |zones'| == |zones|
    && (forall p | 0 <= p < |pools| ::
          pools'[p] == pools[p].(
            zoneNext := if p in chain then Redirect(pools[p].zoneNext, x, pools[x].zoneNext) else pools[p].zoneNext))
    && forall z | 0 <= z < |zones| ::
         zones'[z] == if z == pools[x].zone
           then zones[z].(firstPool := Redirect(zones[z].firstPool, x, pools[x].zoneNext))
           else zones[z]
  }

  ghost function WithoutPool(s: Shape, x: int): Shape {
    s.(zoneChains := seq(|s.zoneChains|, z requires 0 <= z < |s.zoneChains| => Without(s.zoneChains[z], {x})),
       childChains := seq(|s.childChains|, p requires 0 <= p < |s.childChains| => Without(s.childChains[p], {x})),
       freeChain := [x] + s.freeChain)
  }

  /** After the child step the zone chain can still be walked. */
  lemma {:induction false} ZoneChainIntact(v: View, pools: seq<Pool>, x: int)
    requires Inv(v) && Live(v, x) && ChildUnlinked(v.pools, pools, x, Siblings(v, x))
    ensures 0 <= v.pools[x].zone <= v.zoneTop && pools[x].zone == v.pools[x].zone && x in ZoneMates(v, x)
    ensures NoDup(ZoneMates(v, x))
    ensures Linked(pools, ZoneLink, v.zones[v.pools[x].zone].firstPool, ZoneMates(v, x))
  {
    assert PoolOk(v, x) && ZoneOk(v, v.pools[x].zone);
    DescendingNoDup(v.shape.birth, ZoneMates(v, x));
    LinkedElsewhereSame(v.pools, pools, ZoneLink, v.zones[v.pools[x].zone].firstPool, ZoneMates(v, x));
  }

  lemma {:induction false} SiblingChain(v: View, x: int)
    requires Inv(v) && Live(v, x)
    ensures v.pools[x].parent < |v.pools|
    ensures v.pools[x].parent < 0 ==> Siblings(v, x) == []
    ensures v.pools[x].parent >= 0 ==>
              && Linked(v.pools, ChildLink, v.pools[v.pools[x].parent].firstChild, Siblings(v, x))
              && NoDup(Siblings(v, x)) && x in Siblings(v, x)
  {
    assert PoolOk(v, x);
    if v.pools[x].parent >= 0 {
      assert ChildrenOk(v, v.pools[x].parent);
      DescendingNoDup(v.shape.birth, Siblings(v, x));
    }
  }

  /** The three steps, one after the other, detach the pool. */
  lemma {:induction false} StepsDetach(v: View, pools1: seq<Pool>, pools2: seq<Pool>, w: View, x: int)
    requires Inv(v) && Live(v, x)
    requires ChildUnlinked(v.pools, pools1, x, Siblings(v, x))
    requires ZoneUnlinked(pools1, v.zones, pools2, w.zones, x, ZoneMates(v, x))
    requires w.pools == pools2[x := Freed(pools2[x], v.freeHead)]
    requires w.kind == v.kind && w.zoneTop == v.zoneTop && w.freeHead == x && w.liveN == v.liveN - 1
    requires w.bytesAll == v.bytesAll - SumSizes(pools2[x].blocks) && w.shape == WithoutPool(v.shape, x)
    ensures Detached(v, w, x)
  {
    SiblingChain(v, x);
    ZoneChainIntact(v, pools1, x);
    NotOwnSuccessor(v, x);
    assert pools2[x].blocks == v.pools[x].blocks;
    forall p | 0 <= p < |v.pools| && p != x ensures w.pools[p] == Rewired(v, x, p) {
    }
  }

  lemma {:induction false} NotOwnSuccessor(v: View, x: int)
    requires Inv(v) && Live(v, x)
    ensures v.pools[x].parent >= 0 ==> v.pools[x].nextSibling != x
    ensures v.pools[x].zoneNext != x && v.pools[x].parent != x
  {
    assert PoolOk(v, x) && ZoneOk(v, v.pools[x].zone);
    SiblingChain(v, x);
    MemberNotOwnNext(v.pools, ZoneLink, v.zones[v.pools[x].zone].firstPool, ZoneMates(v, x), x) by {
      DescendingNoDup(v.shape.birth, ZoneMates(v, x));
    }
    if v.pools[x].parent >= 0 {
      MemberNotOwnNext(v.pools, ChildLink, v.pools[v.pools[x].parent].firstChild, Siblings(v, x), x);
    }
  }

  lemma {:induction false} MemberNotOwnNext(pools: seq<Pool>, k: Link, head: int, chain: seq<int>, x: int)
    requires Linked(pools, k, head, chain) && NoDup(chain) && x in chain && 0 <= x < |pools|
    ensures Next(pools[x], k) != x
  {
    var i :| 0 <= i < |chain| && chain[i] == x;
    assert Next(pools[chain[i]], k) == At(chain, i + 1);
  }

  lemma {:induction false} DetachedLive(v: View, w: View, x: int, p: int)
    requires Sizes(v) && Live(v, x) && Detached(v, w, x)
    ensures Live(w, p) <==> Live(v, p) && p != x
    ensures Live(v, p) && p != x ==> Kept(v.pools[p], w.pools[p])
  {
  }

  lemma {:induction false} DetachedZone(v: View, w: View, x: int, z: int)
    requires Inv(v) && Live(v, x) && Detached(v, w, x) && 0 <= z <= v.zoneTop
    ensures ZoneOk(w, z)
  {
    assert PoolOk(v, x) && ZoneOk(v, z);
    var chain := v.shape.zoneChains[z];
    DescendingNoDup(v.shape.birth, chain);
    DescendingWithout(v.shape.birth, chain, {x});
    if z != v.pools[x].zone {
      assert x !in chain;
      WithoutNone(chain, {x});
      LinkedElsewhere(v.pools, w.pools, ZoneLink, v.zones[z].firstPool, chain, x);
    } else {
      LinkedRedirect(v.pools, w.pools, ZoneLink, v.zones[z].firstPool, chain, x);
    }
    forall y | y in w.shape.zoneChains[z] ensures Live(w, y) && w.pools[y].zone == z {
      WithoutMember(chain, {x}, y);
      DetachedLive(v, w, x, y);
    }
  }

  lemma {:induction false} DetachedChildren(v: View, w: View, x: int, p: int)
    requires Inv(v) && Live(v, x) && Detached(v, w, x) && Live(w, p)
    ensures ChildrenOk(w, p)
  {
    DetachedLive(v, w, x, p);
    assert PoolOk(v, x) && ChildrenOk(v, p);
    var chain := v.shape.childChains[p];
    DescendingNoDup(v.shape.birth, chain);
    DescendingWithout(v.shape.birth, chain, {x});
    if p != v.pools[x].parent {
      assert x !in chain;
      WithoutNone(chain, {x});
      LinkedElsewhere(v.pools, w.pools, ChildLink, v.pools[p].firstChild, chain, x);
    } else {
      LinkedRedirect(v.pools, w.pools, ChildLink, v.pools[p].firstChild, chain, x);
    }
    forall y | y in w.shape.childChains[p] ensures Live(w, y) && w.pools[y].parent == p {
      WithoutMember(chain, {x}, y);
      DetachedLive(v, w, x, y);
    }
  }

  lemma {:induction false} DetachedPool(v: View, w: View, x: int, p: int)
    requires Inv(v) && Live(v, x) && Detached(v, w, x) && Live(w, p)
    requires v.shape.childChains[x] == []
    ensures PoolOk(w, p)
  {
    DetachedLive(v, w, x, p);
    assert PoolOk(v, p);
    WithoutMember(v.shape.zoneChains[v.pools[p].zone], {x}, p);
    if v.pools[p].parent >= 0 {
      DetachedLive(v, w, x, v.pools[p].parent);
      WithoutMember(v.shape.childChains[v.pools[p].parent], {x}, p);
    }
  }

  lemma {:induction false} DetachedFree(v: View, w: View, x: int)
    requires Inv(v) && Live(v, x) && Detached(v, w, x)
    ensures FreeOk(w)
  {
    forall y | y in v.shape.freeChain && 0 <= y < |v.pools|
      ensures Next(w.pools[y], FreeLink) == Next(v.pools[y], FreeLink) {
      assert y != x;
    }
    assert x !in v.shape.freeChain;
    LinkedElsewhere(v.pools, w.pools, FreeLink, v.freeHead, v.shape.freeChain, x);
    LinkedCons(w.pools, FreeLink, x, w.shape.freeChain);
    assert w.shape.freeChain[1..] == v.shape.freeChain;
    forall y | y in w.shape.freeChain ensures !Live(w, y) {
      DetachedLive(v, w, x, y);
    }
  }

  lemma {:induction false} DetachedBlocks(v: View, w: View, x: int)
    requires Inv(v) && Live(v, x) && Detached(v, w, x)
    ensures BlocksOk(w)
  {
    TotalUpdate(v.pools, w.pools, x);
    OwnedOnceShrinks(v.pools, w.pools);
  }

  lemma {:induction false} OwnedOnceShrinks(pools: seq<Pool>, pools': seq<Pool>)
    requires OwnedOnce(pools) && |pools'| == |pools|
    requires forall p | 0 <= p < |pools| :: pools'[p].blocks == pools[p].blocks || pools'[p].blocks == []
    ensures OwnedOnce(pools')
  {
  }

  lemma {:induction false} DetachedCounts(v: View, w: View, x: int)
    requires Inv(v) && Live(v, x) && Detached(v, w, x)
    ensures CountsOk(w, 0)
  {
    forall p ensures p in LiveSet(w.pools) <==> p in LiveSet(v.pools) - {x} {
      DetachedLive(v, w, x, p);
    }
    assert LiveSet(w.pools) == LiveSet(v.pools) - {x};
    assert x in LiveSet(v.pools);
  }

  /** Detaching a childless pool keeps the invariant and kills exactly that pool. */
  lemma {:induction false} DetachedKeepsInv(v: View, w: View, x: int)
    requires Inv(v) && Live(v, x) && Detached(v, w, x) && v.shape.childChains[x] == []
    ensures Inv(w) && Killed(v, w, {x})
  {
    forall z | 0 <= z <= w.zoneTop ensures ZoneOk(w, z) { DetachedZone(v, w, x, z); }
    forall p | Live(w, p) ensures ChildrenOk(w, p) { DetachedChildren(v, w, x, p); }
    forall p | Live(w, p) ensures PoolOk(w, p) { DetachedPool(v, w, x, p); }
    DetachedFree(v, w, x);
    DetachedBlocks(v, w, x);
    DetachedCounts(v, w, x);
    DetachedKills(v, w, x);
  }

  lemma {:induction false} DetachedKills(v: View, w: View, x: int)
    requires Sizes(v) && Sizes(w) && Live(v, x) && Detached(v, w, x)
    ensures Killed(v, w, {x})
  {
    assert FreedInto(v.shape.freeChain, w.shape.freeChain, {x});
  }

  /** The three steps, one after the other, keep the invariant and kill exactly that pool. */
  lemma {:induction false} StepsKill(v: View, pools1: seq<Pool>, pools2: seq<Pool>, w: View, x: int)
    requires Inv(v) && Live(v, x) && v.shape.childChains[x] == []
    requires ChildUnlinked(v.pools, pools1, x, Siblings(v, x))
    requires ZoneUnlinked(pools1, v.zones, pools2, w.zones, x, ZoneMates(v, x))
    requires w.pools == pools2[x := Freed(pools2[x], v.freeHead)]
    requires w.kind == v.kind && w.zoneTop == v.zoneTop && w.freeHead == x && w.liveN == v.liveN - 1
    requires w.bytesAll == v.bytesAll - SumSizes(pools2[x].blocks) && w.shape == WithoutPool(v.shape, x)
    ensures Inv(w) && Killed(v, w, {x})
  {
    StepsDetach(v, pools1, pools2, w, x);
    DetachedKeepsInv(v, w, x);
  }

  // ---------------------------------------------------------------- changes the chains do not see

  /** Two records that agree on everything the chains depend on. */
  predicate SameLinks(a: Pool, b: Pool) {
    && b == a.(generation := b.generation, blocks := b.blocks, bytes := b.bytes)
    && (b.live ==> b.generation >= 1)
  }

  ghost predicate SameChains(v: View, w: View) {
    && |w.pools| == |v.pools| && w.kind == v.kind && w.shape == v.shape
    && w.zones == v.zones && w.zoneTop == v.zoneTop && w.freeHead == v.freeHead && w.liveN == v.liveN
    && forall p | 0 <= p < |v.pools| :: SameLinks(v.pools[p], w.pools[p])
  }

  lemma {:induction false} SameChainsLinked(v: View, w: View, k: Link, head: int, chain: seq<int>)
    requires SameChains(v, w) && Linked(v.pools, k, head, chain)
    ensures Linked(w.pools, k, head, chain)
  {
    forall y | y in chain && 0 <= y < |v.pools| ensures Next(w.pools[y], k) == Next(v.pools[y], k) {
      assert SameLinks(v.pools[y], w.pools[y]);
    }
    LinkedElsewhereSame(v.pools, w.pools, k, head, chain);
  }

  lemma {:induction false} SameChainsZone(v: View, w: View, z: int)
    requires Core(v) && SameChains(v, w) && 0 <= z <= v.zoneTop
    ensures ZoneOk(w, z)
  {
    assert ZoneOk(v, z);
    SameChainsLinked(v, w, ZoneLink, v.zones[z].firstPool, v.shape.zoneChains[z]);
    forall x | x in v.shape.zoneChains[z] ensures Live(w, x) && w.pools[x].zone == z {
      assert SameLinks(v.pools[x], w.pools[x]);
    }
  }

  lemma {:induction false} SameChainsChildren(v: View, w: View, p: int)
    requires Core(v) && SameChains(v, w) && Live(w, p)
    ensures ChildrenOk(w, p)
  {
    assert SameLinks(v.pools[p], w.pools[p]) && ChildrenOk(v, p);
    SameChainsLinked(v, w, ChildLink, v.pools[p].firstChild, v.shape.childChains[p]);
    forall x | x in v.shape.childChains[p] ensures Live(w, x) && w.pools[x].parent == p {
      assert SameLinks(v.pools[x], w.pools[x]);
    }
  }

  lemma {:induction false} SameChainsPool(v: View, w: View, p: int)
    requires Core(v) && SameChains(v, w) && Live(w, p)
    ensures PoolOk(w, p)
  {
    assert SameLinks(v.pools[p], w.pools[p]) && PoolOk(v, p);
    if v.pools[p].parent >= 0 {
      assert SameLinks(v.pools[v.pools[p].parent], w.pools[v.pools[p].parent]);
    }
  }

  /** Changing generations and blocks keeps the invariant if the blocks stay in order. */
  lemma {:induction false} SameChainsKeepInv(v: View, w: View)
    requires Inv(v) && SameChains(v, w) && BlocksOk(w)
    ensures Inv(w)
  {
    forall z | 0 <= z <= w.zoneTop ensures ZoneOk(w, z) { SameChainsZone(v, w, z); }
    forall p | Live(w, p) ensures ChildrenOk(w, p) { SameChainsChildren(v, w, p); }
    forall p | Live(w, p) ensures PoolOk(w, p) { SameChainsPool(v, w, p); }
    SameChainsFree(v, w);
    SameChainsLive(v, w);
  }

  lemma {:induction false} SameChainsFree(v: View, w: View)
    requires FreeOk(v) && SameChains(v, w)
    ensures FreeOk(w)
  {
    SameChainsLinked(v, w, FreeLink, v.freeHead, v.shape.freeChain);
    forall x | x in v.shape.freeChain ensures !Live(w, x) {
      assert 0 <= x < |v.pools| ==> SameLinks(v.pools[x], w.pools[x]);
    }
  }

  lemma {:induction false} SameChainsLive(v: View, w: View)
    requires SameChains(v, w)
    ensures LiveSet(w.pools) == LiveSet(v.pools)
  {
    forall p | 0 <= p < |v.pools| ensures w.pools[p].live == v.pools[p].live {
      assert SameLinks(v.pools[p], w.pools[p]);
    }
  }
}
