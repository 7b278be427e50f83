/**
 The pool registry of the emitted runtime: a table of pools, threaded on intrusive chains, with
 a stack of zones.  Every operation keeps `Valid`; dropping a pool or leaving zones kills exactly
 the pools nested below.
 */
module PoolRegistry {
  import opened Chains
  import opened PoolState
  import opened PoolSurgery
  import opened PoolBirth

  /** Places that hold a link, as the walking `link` pointer of the unlink loops does. */
  datatype LinkAt = FirstChildOf(p: int) | NextSiblingOf(p: int) | FirstPoolOf(z: int) | ZoneNextOf(p: int)

  /** What an operation that can stop the program hands back. */
  datatype Outcome = Trapped | Done(value: int)

  // ---------------------------------------------------------------- lemmas for the loops

  /** On a chain without repetitions only the predecessor's link names a member. */
  lemma {:induction false} OnlyPredecessorNames(pools: seq<Pool>, k: Link, head: int, chain: seq<int>, j: nat, y: int)
    requires Linked(pools, k, head, chain) && NoDup(chain) && j < |chain| && y in chain && 0 <= y < |pools|
    ensures Next(pools[y], k) == chain[j] <==> j > 0 && y == chain[j - 1]
    ensures head == chain[j] <==> j == 0
  {
    var i :| 0 <= i < |chain| && chain[i] == y;
    assert Next(pools[chain[i]], k) == At(chain, i + 1);
  }

  /** The trees of the first children dropped so far. */
  ghost function Trees(v: View, roots: seq<int>): set<int>
    requires Sizes(v)
  {
    if roots == [] then {} else Trees(v, roots[..|roots| - 1]) + Tree(v, roots[|roots| - 1])
  }

  lemma {:induction false} InTrees(v: View, roots: seq<int>, x: int)
    requires Sizes(v)
    ensures x in Trees(v, roots) <==> exists i | 0 <= i < |roots| :: x in Tree(v, roots[i])
  {
    if roots != [] {
      var n := |roots| - 1;
      InTrees(v, roots[..n], x);
      if exists i | 0 <= i < |roots| :: x in Tree(v, roots[i]) {
        var i :| 0 <= i < |roots| && x in Tree(v, roots[i]);
        if i < n {
          assert roots[..n][i] == roots[i];
        }
      }
    }
  }

  /** A tree is its root and the trees of the root's children. */
  lemma {:induction false} TreeIsChildTrees(v: View, r: int)
    requires Inv(v) && Live(v, r)
    ensures Trees(v, v.shape.childChains[r]) == Tree(v, r) - {r}
  {
    var cs := v.shape.childChains[r];
    forall x ensures x in Trees(v, cs) <==> x in Tree(v, r) - {r} {
      InTrees(v, cs, x);
      if x in Tree(v, r) - {r} {
        var c := UnderAChild(v, x, r);
        var i :| 0 <= i < |cs| && cs[i] == c;
        assert x in Tree(v, cs[i]);
      }
      if x in Trees(v, cs) {
        var i :| 0 <= i < |cs| && x in Tree(v, cs[i]);
        ChildTree(v, cs[i], r);
      }
    }
  }

  /** Dropping the head of a chain whose other members are outside its tree leaves the tail. */
  lemma {:induction false} WithoutHead(chain: seq<int>, d: set<int>)
    requires chain != [] && NoDup(chain) && chain[0] in d
    requires forall o | o in chain && o in d :: o == chain[0]
    ensures Without(chain, d) == chain[1..]
  {
    WithoutSame(chain, d, {chain[0]});
    WithoutOne(chain, 0);
    assert chain[..0] + chain[1..] == chain[1..];
  }

  lemma {:induction false} DropChildStep(v0: View, v1: View, v2: View, rid: int, cs: seq<int>, i: nat, d: set<int>)
    requires Inv(v0) && Inv(v1) && Inv(v2) && Live(v0, rid) && Live(v1, rid)
    requires cs == v0.shape.childChains[rid] && i < |cs| && d == Trees(v0, cs[..i])
    requires Killed(v0, v1, d) && v1.shape.childChains[rid] == cs[i..]
    requires Killed(v1, v2, Tree(v1, cs[i]))
    ensures Killed(v0, v2, Trees(v0, cs[..i + 1])) && Live(v2, rid)
    ensures v2.shape.childChains[rid] == cs[i + 1..]
  {
    assert cs[i..][0] == cs[i] && cs[i..][1..] == cs[i + 1..];
    KilledTree(v0, v1, v2, d, cs[i]);
    TreesGrow(v0, cs, i);
    DropChildChain(v1, v2, rid);
  }

  /** Killing what is left of a tree kills, with what went before, all of it. */
  lemma {:induction false} KilledTree(v0: View, v1: View, v2: View, d: set<int>, c: int)
    requires Inv(v0) && Inv(v1) && Sizes(v2) && Killed(v0, v1, d) && Killed(v1, v2, Tree(v1, c))
    ensures Killed(v0, v2, d + Tree(v0, c))
  {
    TreeSurvives(v0, v1, d, c);
    KilledTrans(v0, v1, v2, d, Tree(v1, c));
    SetRegained(d, Tree(v0, c));
  }

  lemma {:induction false} SetRegained(d: set<int>, t: set<int>)
    ensures d + (t - d) == d + t
  {
  }

  lemma {:induction false} TreesGrow(v: View, cs: seq<int>, i: nat)
    requires Sizes(v) && i < |cs|
    ensures Trees(v, cs[..i + 1]) == Trees(v, cs[..i]) + Tree(v, cs[i])
  {
    assert cs[..i + 1][..i] == cs[..i];
  }

  lemma {:induction false} DropChildChain(v: View, w: View, rid: int)
    requires Inv(v) && Inv(w) && Live(v, rid) && v.shape.childChains[rid] != []
    requires Killed(v, w, Tree(v, v.shape.childChains[rid][0]))
    ensures Live(w, rid) && w.shape.childChains[rid] == v.shape.childChains[rid][1..]
  {
    var cs := v.shape.childChains[rid];
    ChildTree(v, cs[0], rid);
    assert Kept(v.pools[rid], w.pools[rid]);
    assert ChildrenOk(v, rid);
    DescendingNoDup(v.shape.birth, cs);
    WithoutHead(cs, Tree(v, cs[0]));
  }

  lemma {:induction false} DropWhole(u: View, v: View, w: View, rid: int)
    requires Sizes(u) && Sizes(v) && Sizes(w) && Live(u, rid)
    requires Killed(u, v, Tree(u, rid) - {rid}) && Killed(v, w, {rid})
    ensures Killed(u, w, Tree(u, rid))
  {
    KilledTrans(u, v, w, Tree(u, rid) - {rid}, {rid});
    assert Tree(u, rid) - {rid} + {rid} == Tree(u, rid);
  }

  /** The pools a zone exit takes: everything born in a zone at or above the mark, and what is nested in it. */
  ghost predicate Doomed(v: View, mark: int, x: int)
    requires Sizes(v)
  {
    Live(v, x) && exists r | 0 <= r < |v.pools| ::
      v.pools[r].live && v.pools[r].zone >= mark && Under(v.pools, v.shape.birth, x, r)
  }

  ghost function DoomedSet(v: View, mark: int): set<int>
    requires Sizes(v)
  {
    set x | 0 <= x < |v.pools| && Doomed(v, mark, x)
  }

  lemma {:induction false} DropZoneStep(v0: View, v1: View, v2: View, zi: int, mark: int, chain: seq<int>, i: nat,
          d: set<int>)
    requires Inv(v0) && Inv(v1) && Inv(v2) && v1.zoneTop == v2.zoneTop == zi >= 0 && mark <= zi
    requires Killed(v0, v1, d) && d <= DoomedSet(v0, mark)
    requires i < |chain| && v1.shape.zoneChains[zi] == chain[i..]
    requires Live(v1, chain[i]) && Killed(v1, v2, Tree(v1, chain[i]))
    ensures Killed(v0, v2, d + Tree(v1, chain[i])) && d + Tree(v1, chain[i]) <= DoomedSet(v0, mark)
    ensures v2.shape.zoneChains[zi] == chain[i + 1..]
  {
    var c, t := chain[i], Tree(v1, chain[i]);
    assert chain[i..][0] == c;
    assert ZoneOk(v1, zi);
    TreeSurvives(v0, v1, d, c);
    KilledTrans(v0, v1, v2, d, t);
    assert c !in d && Kept(v0.pools[c], v1.pools[c]) && v0.pools[c].zone == zi;
    forall x | x in t ensures x in DoomedSet(v0, mark) {
      assert x in Tree(v0, c);
    }
    DescendingNoDup(v1.shape.birth, chain[i..]);
    forall o | o in chain[i..] && o != c ensures o !in t {
      var j :| 0 <= j < |chain[i..]| && chain[i..][j] == o;
      assert v1.shape.birth[chain[i..][0]] > v1.shape.birth[chain[i..][j]];
      if Under(v1.pools, v1.shape.birth, o, c) {
        UnderIsYounger(v1.pools, v1.shape.birth, o, c);
      }
    }
    assert c in t;
    WithoutHead(chain[i..], t);
    assert chain[i..][1..] == chain[i + 1..];
  }

  /** The zone stack without its top, which has to be empty by then. */
  ghost function Popped(v: View): View
    requires Sizes(v) && v.zoneTop >= 0
  {
    v.(zoneTop := v.zones[v.zoneTop].parent, shape := v.shape.(zoneChains := v.shape.zoneChains[..v.zoneTop]))
  }

  lemma {:induction false} PopZone(v: View, z: int)
    requires Inv(v) && v.zoneTop >= 0 && Sizes(Popped(v)) && 0 <= z < v.zoneTop && Popped(v).zoneTop == v.zoneTop - 1
    ensures ZoneOk(Popped(v), z)
  {
    assert ZoneOk(v, z);
  }

  lemma {:induction false} PopPool(v: View, p: int)
    requires Inv(v) && v.zoneTop >= 0 && v.shape.zoneChains[v.zoneTop] == []
    requires Sizes(Popped(v)) && Popped(v).zoneTop == v.zoneTop - 1 && Live(v, p)
    ensures ChildrenOk(Popped(v), p) && PoolOk(Popped(v), p)
  {
    assert ChildrenOk(v, p) && PoolOk(v, p);
  }

  lemma {:induction false} PopKeepsInv(v: View)
    requires Inv(v) && v.zoneTop >= 0 && v.shape.zoneChains[v.zoneTop] == []
    ensures Inv(Popped(v)) && Killed(v, Popped(v), {}) && Popped(v).zoneTop == v.zoneTop - 1
  {
    var w := Popped(v);
    assert ZoneOk(v, v.zoneTop);
    forall z | 0 <= z <= w.zoneTop ensures ZoneOk(w, z) {
      PopZone(v, z);
    }
    forall p | Live(w, p) ensures ChildrenOk(w, p) && PoolOk(w, p) {
      PopPool(v, p);
    }
    KilledNothing(v);
  }

  lemma {:induction false} PopKills(v0: View, v: View, d: set<int>)
    requires Sizes(v0) && Inv(v) && Killed(v0, v, d)
    requires v.zoneTop >= 0 && v.shape.zoneChains[v.zoneTop] == []
    ensures Inv(Popped(v)) && Popped(v).zoneTop == v.zoneTop - 1 && Killed(v0, Popped(v), d)
  {
    PopKeepsInv(v);
    KilledTrans(v0, v, Popped(v), d, {});
    assert d + {} == d;
  }

  /** Once no pool of the doomed zones is left, exactly the doomed pools are gone. */
  lemma {:induction false} AllDoomedGone(v: View, w: View, d: set<int>, mark: int)
    requires Inv(v) && Inv(w) && Killed(v, w, d) && d <= DoomedSet(v, mark) && w.zoneTop < mark
    ensures d == DoomedSet(v, mark)
  {
    forall x | x in DoomedSet(v, mark) ensures x in d {
      var r :| 0 <= r < |v.pools| && v.pools[r].live && v.pools[r].zone >= mark && Under(v.pools, v.shape.birth, x, r);
      RootGone(v, w, d, mark, r);
      if Live(w, x) {
        UnderSurvives(v, w, d, x, r);
        AncestorsLive(w, x, r);
      }
      assert x in d || Kept(v.pools[x], w.pools[x]);
    }
  }

  lemma {:induction false} RootGone(v: View, w: View, d: set<int>, mark: int, r: int)
    requires Inv(v) && Inv(w) && Killed(v, w, d) && w.zoneTop < mark
    requires Live(v, r) && v.pools[r].zone >= mark
    ensures !Live(w, r)
  {
    assert Live(w, r) ==> PoolOk(w, r);
    assert r in d || Kept(v.pools[r], w.pools[r]);
  }

  lemma {:induction false} ChildFacts(v: View, rid: int, cs: seq<int>, i: nat)
    requires Inv(v) && Live(v, rid) && i < |cs| && v.shape.childChains[rid] == cs[i..]
    ensures Live(v, cs[i]) && v.pools[cs[i]].nextSibling == At(cs, i + 1)
    ensures v.shape.birth[rid] < v.shape.birth[cs[i]] < v.shape.clock
  {
    assert ChildrenOk(v, rid);
    assert cs[i..][0] == cs[i] && cs[i] in cs[i..];
    assert Next(v.pools[cs[i..][0]], ChildLink) == At(cs[i..], 1) == At(cs, i + 1);
    assert PoolOk(v, cs[i]);
  }

  lemma {:induction false} ZoneFacts(v: View, zi: int, chain: seq<int>, i: nat)
    requires Inv(v) && 0 <= zi <= v.zoneTop && i < |chain| && v.shape.zoneChains[zi] == chain[i..]
    ensures Live(v, chain[i]) && v.pools[chain[i]].zoneNext == At(chain, i + 1)
  {
    assert ZoneOk(v, zi);
    assert chain[i..][0] == chain[i] && chain[i] in chain[i..];
    assert Next(v.pools[chain[i..][0]], ZoneLink) == At(chain[i..], 1) == At(chain, i + 1);
  }

  ghost function WithGeneration(v: View, rid: int, g: nat): View
    requires 0 <= rid < |v.pools|
  {
    v.(pools := v.pools[rid := v.pools[rid].(generation := g)])
  }

  /** The pool with its generation raised by one. */
  ghost function Renewed(v: View, rid: int): View
    requires 0 <= rid < |v.pools|
  {
    WithGeneration(v, rid, v.pools[rid].generation + 1)
  }

  lemma {:induction false} GenerationEvolves(v: View, rid: int)
    requires |v.kind| == |v.pools| && 0 <= rid < |v.pools|
    ensures Evolves(v, Renewed(v, rid))
  {
    var w := Renewed(v, rid);
    forall p | 0 <= p < |v.pools| ensures PoolEvolves(v, w, p) {
    }
  }

  lemma {:induction false} GenerationBack(v: View, rid: int, g: nat)
    requires 0 <= rid < |v.pools|
    ensures WithGeneration(WithGeneration(v, rid, g), rid, v.pools[rid].generation) == v
  {
    assert v.pools[rid := v.pools[rid].(generation := g)][rid := v.pools[rid]] == v.pools;
  }

  /** From `v` to `w` pool `rid` was reset: what was nested in it is gone and its generation is one higher. */
  ghost predicate WasReset(v: View, w: View, rid: int)
    requires Sizes(v) && Sizes(w) && Live(v, rid)
  {
    && Live(w, rid) && w.pools[rid].generation == v.pools[rid].generation + 1
    && Killed(v, WithGeneration(w, rid, v.pools[rid].generation), Tree(v, rid) - {rid})
  }

  lemma {:induction false} RenewedIsReset(u: View, v: View, w: View, rid: int)
    requires Sizes(u) && Sizes(v) && Sizes(w) && Live(u, rid) && Live(v, rid)
    requires Killed(u, v, Tree(u, rid) - {rid}) && w == Renewed(v, rid)
    ensures WasReset(u, w, rid) && Evolves(u, w)
  {
    assert Kept(u.pools[rid], v.pools[rid]);
    GenerationBack(v, rid, v.pools[rid].generation + 1);
    KilledEvolves(u, v, Tree(u, rid) - {rid});
    GenerationEvolves(v, rid);
    EvolvesTrans(u, v, w);
  }

  /** The links, and all else the invariant speaks of, do not depend on a live pool's generation. */
  lemma {:induction false} GenerationKeepsInv(v: View, rid: int, g: nat)
    requires Inv(v) && Live(v, rid) && g >= 1
    ensures Inv(WithGeneration(v, rid, g))
  {
    var w := WithGeneration(v, rid, g);
    assert SameChains(v, w) by {
      forall p | 0 <= p < |v.pools| ensures SameLinks(v.pools[p], w.pools[p]) {
        assert Live(v, p) ==> PoolOk(v, p);
      }
    }
    BlocksSame(v, w);
    SameChainsKeepInv(v, w);
  }

  /** Pushing an empty zone disturbs nothing below it. */
  lemma {:induction false} EnterKeepsInv(v: View, w: View)
    requires Inv(v) && w.zoneTop == v.zoneTop + 1 < |w.zones|
    requires w.zones[w.zoneTop].firstPool == -1 && w.zones[w.zoneTop].parent == v.zoneTop
    requires 1 <= w.zones[w.zoneTop].color <= 7
    requires forall z | 0 <= z <= v.zoneTop :: w.zones[z] == v.zones[z]
    requires w == v.(zones := w.zones, zoneTop := w.zoneTop, shape := v.shape.(zoneChains := v.shape.zoneChains + [[]]))
    ensures Inv(w)
  {
    forall z | 0 <= z <= w.zoneTop ensures ZoneOk(w, z) {
      if z <= v.zoneTop {
        assert ZoneOk(v, z);
      }
    }
    forall p | Live(w, p) ensures ChildrenOk(w, p) {
      assert ChildrenOk(v, p);
    }
    forall p | Live(w, p) ensures PoolOk(w, p) {
      assert PoolOk(v, p);
    }
  }

  /** The state with slot `idx` marked as an object table. */
  ghost function TableMarked(v: View, idx: int): View
    requires 0 <= idx < |v.kind|
  {
    v.(kind := v.kind[idx := 1], shape := v.shape.(tables := v.shape.tables + {idx}))
  }

  /** Marking a newborn as an object table is part of its creation. */
  lemma {:induction false} NewbornTableEvolves(v: View, w: View, idx: int, parent: int, zi: int)
    requires Sizes(v) && Sizes(w) && Created(v, w, idx, parent, zi)
    ensures Evolves(v, TableMarked(w, idx))
  {
    var w' := TableMarked(w, idx);
    forall p | 0 <= p < |v.pools| ensures PoolEvolves(v, w', p) {
    }
  }

  /** Nothing but the kind byte depends on whether a slot has been an object table. */
  lemma {:induction false} TableMarkedKeepsInv(v: View, idx: int)
    requires Inv(v) && 0 <= idx < |v.pools|
    ensures Inv(TableMarked(v, idx))
  {
    var w := TableMarked(v, idx);
    forall z | 0 <= z <= w.zoneTop ensures ZoneOk(w, z) { assert ZoneOk(v, z); }
    forall p | Live(w, p) ensures ChildrenOk(w, p) { assert ChildrenOk(v, p); }
    forall p | Live(w, p) ensures PoolOk(w, p) { assert PoolOk(v, p); }
  }

  lemma {:induction false} TakeKeepsInv(v: View, rid: int, b: Block)
    requires Inv(v) && Live(v, rid) && AddrUnowned(v.pools, b.addr)
    ensures Inv(WithBlocks(v, rid, [b] + v.pools[rid].blocks))
  {
    var blocks := [b] + v.pools[rid].blocks;
    forall i | 0 <= i < |blocks| ensures NotElsewhere(v.pools, rid, blocks[i].addr) {
      if i > 0 {
        OwnBlockNotElsewhere(v.pools, rid, i - 1);
      }
    }
    ReplacedOwnedOnce(v, rid, blocks);
    BlocksKeepInv(v, rid, blocks);
  }

  lemma {:induction false} GiveKeepsInv(v: View, rid: int, i: nat)
    requires Inv(v) && Live(v, rid) && i < |v.pools[rid].blocks|
    ensures Inv(WithBlocks(v, rid, v.pools[rid].blocks[..i] + v.pools[rid].blocks[i + 1..]))
  {
    var old_ := v.pools[rid].blocks;
    var blocks := old_[..i] + old_[i + 1..];
    forall k | 0 <= k < |blocks| ensures NotElsewhere(v.pools, rid, blocks[k].addr) {
      OwnBlockNotElsewhere(v.pools, rid, if k < i then k else k + 1);
    }
    ReplacedOwnedOnce(v, rid, blocks);
    BlocksKeepInv(v, rid, blocks);
  }

  lemma {:induction false} ResizeKeepsInv(v: View, rid: int, i: nat, b: Block)
    requires Inv(v) && Live(v, rid) && i < |v.pools[rid].blocks|
    requires b.addr == v.pools[rid].blocks[i].addr || AddrUnowned(v.pools, b.addr)
    ensures Inv(WithBlocks(v, rid, v.pools[rid].blocks[i := b]))
  {
    var blocks := v.pools[rid].blocks[i := b];
    forall k | 0 <= k < |blocks| ensures NotElsewhere(v.pools, rid, blocks[k].addr) {
      OwnBlockNotElsewhere(v.pools, rid, k);
    }
    ReplacedOwnedOnce(v, rid, blocks);
    BlocksKeepInv(v, rid, blocks);
  }

  /** How asking pool `rid` to give the block at `p` back turns out. */
  ghost function GiveOutcome(v: View, rid: int, p: nat): Outcome
    requires |v.kind| == |v.pools|
  {
    if !Live(v, rid) || p == 0 then Done(0)
    else if v.kind[rid] != 0 then Trapped
    else if OwnsAddr(v, rid, p) then Done(1)
    else Done(0)
  }

  // ---------------------------------------------------------------- the registry

  /** The walk along a pool's block list: the first block at address `p`, or the end. */
  method FindBlock(blocks: seq<Block>, p: nat) returns (i: nat)
    ensures i <= |blocks|
    ensures i < |blocks| ==> blocks[i].addr == p
    ensures forall j | 0 <= j < i :: blocks[j].addr != p
  {
    i := 0;
    while i < |blocks| && blocks[i].addr != p
      invariant i <= |blocks|
      invariant forall j | 0 <= j < i :: blocks[j].addr != p
    {
      i := i + 1;
    }
  }

  class Registry {
    var pools: seq<Pool>
    var poolLiveN: int
    var poolFreeHead: int
    var poolBytesAll: int
    var poolKind: seq<nat>
    var zones: seq<Zone>
    var zoneTop: int
    ghost var shape: Shape

    ghost function View(): View
      reads this
    {
      PoolState.View(pools, poolLiveN, poolFreeHead, poolBytesAll, poolKind, zones, zoneTop, shape)
    }

    ghost predicate Valid()
      reads this
    {
      Inv(View())
    }

    constructor ()
      ensures Valid() && pools == [] && zoneTop == -1 && poolLiveN == 0 && poolBytesAll == 0
    {
      pools, poolLiveN, poolFreeHead, poolBytesAll, poolKind := [], 0, -1, 0, [];
      zones, zoneTop := [], -1;
      shape := Shape([], [], [], [], 0, 0, {});
      new;
      assert LiveSet(pools) == {};
    }

    // -------------------------------------------------------------- links as places

    function Load(link: LinkAt): int
      requires match link case FirstPoolOf(z) => 0 <= z < |zones| case _ => 0 <= link.p < |pools|
      reads this
    {
      match link
      case FirstChildOf(p) => pools[p].firstChild
      case NextSiblingOf(p) => pools[p].nextSibling
      case FirstPoolOf(z) => zones[z].firstPool
      case ZoneNextOf(p) => pools[p].zoneNext
    }

    /** Takes `rid` off its parent's child list. */
    method UnlinkChild(rid: int, ghost chain: seq<int>)
      requires 0 <= rid < |pools| && pools[rid].parent < |pools|
      requires pools[rid].parent >= 0 ==>
                 Linked(pools, ChildLink, pools[pools[rid].parent].firstChild, chain) && NoDup(chain) && rid in chain
      requires pools[rid].parent < 0 ==> chain == []
      modifies this`pools
      ensures ChildUnlinked(old(pools), pools, rid, chain)
    {
      var parent := pools[rid].parent;
      if parent < 0 {
        return;
      }
      var link := FirstChildOf(parent);
      ghost var j := 0;
      while Load(link) >= 0
        invariant 0 <= j <= |chain| && pools == old(pools)
        invariant link == if j == 0 then FirstChildOf(parent) else NextSiblingOf(chain[j - 1])
        invariant j > 0 ==> 0 <= chain[j - 1] < |pools|
        invariant rid !in chain[..j]
        invariant Load(link) == At(chain, j)
        decreases |chain| - j
      {
        var at := Load(link);
        if at == rid {
          forall y | y in chain && 0 <= y < |pools|
            ensures pools[y].nextSibling == rid <==> j > 0 && y == chain[j - 1]
            ensures pools[parent].firstChild == rid <==> j == 0
          {
            OnlyPredecessorNames(pools, ChildLink, pools[parent].firstChild, chain, j, y);
          }
          match link {
            case FirstChildOf(p) => pools := pools[p := pools[p].(firstChild := pools[rid].nextSibling)];
            case NextSiblingOf(p) => pools := pools[p := pools[p].(nextSibling := pools[rid].nextSibling)];
          }
          return;
        }
        link := NextSiblingOf(at);
        j := j + 1;
        assert Next(pools[chain[j - 1]], ChildLink) == At(chain, j);
      }
    }

    /** `extc_pool_unlinkZone`. */
    method UnlinkZone(rid: int, ghost chain: seq<int>)
      requires 0 <= rid < |pools| && pools[rid].zone < |zones|
      requires pools[rid].zone >= 0 ==>
                 Linked(pools, ZoneLink, zones[pools[rid].zone].firstPool, chain) && NoDup(chain) && rid in chain
      requires pools[rid].zone < 0 ==> chain == []
      modifies this`pools, this`zones
      ensures ZoneUnlinked(old(pools), old(zones), pools, zones, rid, chain)
    {
      var zi := pools[rid].zone;
      if zi < 0 {
        return;
      }
      var link := FirstPoolOf(zi);
      ghost var j := 0;
      while Load(link) >= 0
        invariant 0 <= j <= |chain| && pools == old(pools) && zones == old(zones)
        invariant link == if j == 0 then FirstPoolOf(zi) else ZoneNextOf(chain[j - 1])
        invariant j > 0 ==> 0 <= chain[j - 1] < |pools|
        invariant rid !in chain[..j]
        invariant Load(link) == At(chain, j)
        decreases |chain| - j
      {
        var at := Load(link);
        if at == rid {
          forall y | y in chain && 0 <= y < |pools|
            ensures pools[y].zoneNext == rid <==> j > 0 && y == chain[j - 1]
            ensures zones[zi].firstPool == rid <==> j == 0
          {
            OnlyPredecessorNames(pools, ZoneLink, zones[zi].firstPool, chain, j, y);
          }
          match link {
            case FirstPoolOf(z) => zones := zones[z := zones[z].(firstPool := pools[rid].zoneNext)];
            case ZoneNextOf(p) => pools := pools[p := pools[p].(zoneNext := pools[rid].zoneNext)];
          }
          return;
        }
        link := ZoneNextOf(at);
        j := j + 1;
        assert Next(pools[chain[j - 1]], ZoneLink) == At(chain, j);
      }
    }

    /** `extc_pool_releaseBlocks`: every block goes back, and the total forgets its bytes. */
    method ReleaseBlocks(rid: int)
      requires 0 <= rid < |pools|
      modifies this`pools, this`poolBytesAll
      ensures pools == old(pools)[rid := old(pools)[rid].(blocks := [], bytes := 0)]
      ensures poolBytesAll == old(poolBytesAll) - SumSizes(old(pools)[rid].blocks)
    {
      var b := pools[rid].blocks;
      while b != []
        invariant pools == old(pools)
        invariant poolBytesAll == old(poolBytesAll) - SumSizes(old(pools)[rid].blocks) + SumSizes(b)
        decreases |b|
      {
        poolBytesAll := poolBytesAll - b[0].size;
        b := b[1..];
      }
      pools := pools[rid := pools[rid].(blocks := [], bytes := 0)];
    }

    /** `extc_pool_freeSelf`. */
    method FreeSelf(rid: int)
      requires 0 <= rid < |pools|
      modifies this`pools, this`poolBytesAll, this`poolFreeHead, this`poolLiveN
      ensures pools == old(pools)[rid := Freed(old(pools)[rid], old(poolFreeHead))]
      ensures poolFreeHead == rid && poolLiveN == old(poolLiveN) - 1
      ensures poolBytesAll == old(poolBytesAll) - SumSizes(old(pools)[rid].blocks)
    {
      ReleaseBlocks(rid);
      pools := pools[rid := pools[rid].(live := false, parent := -1, firstChild := -1, freeNext := poolFreeHead)];
      poolFreeHead := rid;
      poolLiveN := poolLiveN - 1;
    }

    /** `extc_pool_unlink_child` and `extc_pool_unlink_zone` in turn. */
    method Unlink(rid: int) returns (ghost between: seq<Pool>)
      requires Valid() && Live(View(), rid) && shape.childChains[rid] == []
      modifies this`pools, this`zones
      ensures ChildUnlinked(old(pools), between, rid, Siblings(old(View()), rid))
      ensures ZoneUnlinked(between, old(zones), pools, zones, rid, ZoneMates(old(View()), rid))
      ensures |pools| == |old(pools)|
    {
      ghost var v := View();
      SiblingChain(v, rid);
      UnlinkChild(rid, Siblings(v, rid));
      between := pools;
      ZoneChainIntact(v, between, rid);
      UnlinkZone(rid, ZoneMates(v, rid));
    }

    /** The tail of `extc_pool_drop`, for a pool whose children are gone. */
    method Detach(rid: int)
      requires Valid() && Live(View(), rid) && shape.childChains[rid] == []
      modifies this
      ensures Valid() && Killed(old(View()), View(), {rid}) && zoneTop == old(zoneTop)
    {
      ghost var v := View();
      ghost var pools1 := Unlink(rid);
      ghost var pools2 := pools;
      FreeSelf(rid);
      shape := WithoutPool(shape, rid);
      StepsKill(v, pools1, pools2, View(), rid);
    }

    /** One round of the child loop. */
    method DropChild(ghost v0: View, rid: int, child: int, ghost cs: seq<int>, ghost i: nat) returns (next: int)
      requires Inv(v0) && Live(v0, rid) && cs == v0.shape.childChains[rid] && i < |cs| && child == cs[i]
      requires Valid() && Live(View(), rid) && shape.childChains[rid] == cs[i..]
      requires Killed(v0, View(), Trees(v0, cs[..i]))
      requires Live(View(), child) && pools[child].nextSibling == At(cs, i + 1)
      modifies this
      ensures Valid() && Live(View(), rid) && shape.childChains[rid] == cs[i + 1..] && next == At(cs, i + 1)
      ensures Killed(v0, View(), Trees(v0, cs[..i + 1])) && zoneTop == old(zoneTop)
      decreases shape.clock - shape.birth[child], 2
    {
      ghost var v1 := View();
      next := pools[child].nextSibling;
      Drop(child);
      DropChildStep(v0, v1, View(), rid, cs, i, Trees(v0, cs[..i]));
    }

    /** The child loop of `extc_pool_drop` and `extc_pool_reset`: every tree hanging below `rid` goes. */
    method DropChildren(rid: int)
      requires Valid() && Live(View(), rid)
      modifies this
      ensures Valid() && zoneTop == old(zoneTop)
      ensures Killed(old(View()), View(), Tree(old(View()), rid) - {rid})
      ensures Live(View(), rid) && shape.childChains[rid] == []
      decreases shape.clock - shape.birth[rid], 0
    {
      ghost var v0 := View();
      ghost var cs := shape.childChains[rid];
      ghost var i := 0;
      ghost var d: set<int> := {};
      KilledNothing(v0);
      assert ChildrenOk(v0, rid);
      var child := pools[rid].firstChild;
      while child >= 0
        invariant Valid() && zoneTop == v0.zoneTop && Live(View(), rid)
        invariant 0 <= i <= |cs| && d == Trees(v0, cs[..i]) && Killed(v0, View(), d)
        invariant shape.childChains[rid] == cs[i..] && child == At(cs, i)
        decreases |cs| - i
      {
        ChildFacts(View(), rid, cs, i);
        child := DropChild(v0, rid, child, cs, i);
        i := i + 1;
        d := Trees(v0, cs[..i]);
      }
      assert cs[..i] == cs;
      TreeIsChildTrees(v0, rid);
    }

    /** `extc_pool_drop`: exactly the pool and everything nested in it is killed. */
    method Drop(rid: int)
      requires Valid()
      modifies this
      ensures Valid() && zoneTop == old(zoneTop)
      ensures !Live(old(View()), rid) ==> View() == old(View())
      ensures Live(old(View()), rid) ==> Killed(old(View()), View(), Tree(old(View()), rid))
      ensures Evolves(old(View()), View())
      decreases if Live(View(), rid) && rid < |shape.birth| then shape.clock - shape.birth[rid] else 0, 1
    {
      SameEvolves(View(), View());
      if rid < 0 || rid >= |pools| || !pools[rid].live {
        return;
      }
      ghost var v0 := View();
      assert PoolOk(v0, rid);
      DropChildren(rid);
      ghost var v1 := View();
      Detach(rid);
      DropWhole(v0, v1, View(), rid);
      KilledEvolves(v0, View(), Tree(v0, rid));
    }

    /**
     `extc_pool_reset`: what is nested goes, the pool stays with a new generation.  Up to that
     generation the new state is the old one with the nested pools killed.
     */
    method Reset(rid: int)
      requires Valid()
      modifies this
      ensures Valid() && zoneTop == old(zoneTop)
      ensures !Live(old(View()), rid) ==> View() == old(View())
      ensures Live(old(View()), rid) ==> WasReset(old(View()), View(), rid)
      ensures Evolves(old(View()), View())
    {
      SameEvolves(View(), View());
      ghost var v0 := View();
      if rid < 0 || rid >= |pools| || !pools[rid].live {
        return;
      }
      DropChildren(rid);
      ghost var v1 := View();
      Renew(rid);
      RenewedIsReset(v0, v1, View(), rid);
    }

    /** The end of `extc_pool_reset`. */
    method Renew(rid: int)
      requires Valid() && Live(View(), rid) && shape.childChains[rid] == []
      modifies this`pools
      ensures Valid() && View() == Renewed(old(View()), rid)
    {
      ghost var v1 := View();
      assert ChildrenOk(v1, rid);
      pools := pools[rid := pools[rid].(firstChild := -1)];
      pools := pools[rid := pools[rid].(generation := pools[rid].generation + 1)];
      assert pools == v1.pools[rid := v1.pools[rid].(generation := v1.pools[rid].generation + 1)];
      GenerationKeepsInv(v1, rid, v1.pools[rid].generation + 1);
    }

    /** `extc_pool_zoneEnter`; `stale` is what memory holds in a stack cell never used before. */
    method ZoneEnter(stale: Zone) returns (id: int)
      requires Valid()
      modifies this
      ensures Valid() && id == old(zoneTop) + 1 == zoneTop
      ensures pools == old(pools) && poolKind == old(poolKind) && poolLiveN == old(poolLiveN)
      ensures poolBytesAll == old(poolBytesAll)
      ensures shape == old(shape).(zoneChains := old(shape).zoneChains + [[]])
      ensures forall z | 0 <= z <= old(zoneTop) :: zones[z] == old(zones)[z]
      ensures 1 <= zones[id].color <= 7
      ensures id < |old(zones)| ==> zones[id].color != old(zones)[id].color
      ensures id < |old(zones)| && 1 <= old(zones)[id].color <= 7 ==> zones[id].color == old(zones)[id].color % 7 + 1
      ensures Evolves(old(View()), View())
    {
      ghost var v := View();
      id := zoneTop + 1;
      if id >= |zones| {
        zones := Padded(zones, Wanted(|zones|) - |zones|, stale);
      }
      var color := (zones[id].color + 1) % 8;
      if color == 0 {
        color := 1;
      }
      zones := zones[id := Zone(-1, zoneTop, color)];
      zoneTop := id;
      shape := shape.(zoneChains := shape.zoneChains + [[]]);
      EnterKeepsInv(v, View());
      SameEvolves(v, View());
    }

    /** The inner loop of `extc_pool_zoneLeaveTo`: the top zone's chain is walked and dropped. */
    method DropZone(ghost v0: View, ghost mark: int, ghost d0: set<int>) returns (ghost d: set<int>)
      requires Valid() && 0 <= zoneTop && mark <= zoneTop
      requires Inv(v0) && Killed(v0, View(), d0) && d0 <= DoomedSet(v0, mark)
      modifies this
      ensures Valid() && zoneTop == old(zoneTop) && shape.zoneChains[zoneTop] == []
      ensures Killed(v0, View(), d) && d <= DoomedSet(v0, mark)
    {
      var zi := zoneTop;
      ghost var chain := shape.zoneChains[zi];
      ghost var i := 0;
      d := d0;
      assert ZoneOk(View(), zi);
      var rid := zones[zi].firstPool;
      while rid >= 0
        invariant Valid() && zoneTop == zi
        invariant Killed(v0, View(), d) && d <= DoomedSet(v0, mark)
        invariant 0 <= i <= |chain| && shape.zoneChains[zi] == chain[i..] && rid == At(chain, i)
        decreases |chain| - i
      {
        ghost var v1 := View();
        ZoneFacts(v1, zi, chain, i);
        var next := pools[rid].zoneNext;
        Drop(rid);
        DropZoneStep(v0, v1, View(), zi, mark, chain, i, d);
        d := d + Tree(v1, rid);
        rid := next;
        i := i + 1;
      }
    }

    /** The empty top zone is popped. */
    method Pop(ghost v0: View, ghost d: set<int>)
      requires Valid() && 0 <= zoneTop && shape.zoneChains[zoneTop] == []
      requires Sizes(v0) && Killed(v0, View(), d)
      modifies this`zoneTop, this`shape
      ensures Valid() && zoneTop == old(zoneTop) - 1 && Killed(v0, View(), d)
    {
      ghost var v1 := View();
      PopKills(v0, v1, d);
      zoneTop := zones[zoneTop].parent;
      shape := shape.(zoneChains := shape.zoneChains[..v1.zoneTop]);
      assert View() == Popped(v1);
    }

    /** One round of the outer loop: the top zone is emptied and popped. */
    method LeaveTop(ghost v0: View, ghost mark: int, ghost d0: set<int>) returns (ghost d: set<int>)
      requires Valid() && 0 <= zoneTop && mark <= zoneTop
      requires Inv(v0) && Killed(v0, View(), d0) && d0 <= DoomedSet(v0, mark)
      modifies this
      ensures Valid() && zoneTop == old(zoneTop) - 1
      ensures Killed(v0, View(), d) && d <= DoomedSet(v0, mark)
    {
      d := DropZone(v0, mark, d0);
      Pop(v0, d);
    }

    /**
     `extc_pool_zoneLeaveTo`: pops down to the mark and kills exactly the pools born in the zones
     left and the pools nested in those.
     */
    method ZoneLeaveTo(mark: int)
      requires Valid()
      modifies this
      ensures Valid()
      ensures zoneTop == if old(zoneTop) < mark then old(zoneTop) else if mark < 0 then -1 else mark - 1
      ensures old(zoneTop) < mark ==> View() == old(View())
      ensures old(zoneTop) >= mark ==>
                Killed(old(View()), View(), DoomedSet(old(View()), if mark < 0 then 0 else mark))
      ensures Evolves(old(View()), View())
    {
      ghost var v0 := View();
      ghost var floor := if mark < 0 then 0 else mark;
      ghost var d: set<int> := {};
      KilledNothing(v0);
      while zoneTop >= mark && zoneTop >= 0
        invariant Valid() && Killed(v0, View(), d) && d <= DoomedSet(v0, floor)
        invariant zoneTop >= -1 && (v0.zoneTop >= mark ==> zoneTop >= floor - 1)
        invariant v0.zoneTop < mark ==> View() == v0
        decreases zoneTop
      {
        d := LeaveTop(v0, floor, d);
      }
      KilledEvolves(v0, View(), d);
      if v0.zoneTop >= mark {
        AllDoomedGone(v0, View(), d, floor);
      }
    }

    /** The slot-finding half of `extc_pool_new_at`. */
    method ReserveSlot() returns (idx: int)
      requires Valid()
      modifies this
      ensures Reserved(View(), idx)
      ensures old(poolFreeHead) >= 0 ==>
                && idx == old(poolFreeHead) < |old(pools)| && old(shape).freeChain != []
                && View() == PoppedFree(old(View()))
      ensures old(poolFreeHead) < 0 ==> idx == |old(pools)| && View() == Grown(old(View()))
    {
      ghost var v := View();
      if poolFreeHead >= 0 {
        PopReserves(v);
        idx := poolFreeHead;
        poolFreeHead := pools[idx].freeNext;
        shape := shape.(freeChain := shape.freeChain[1..]);
      } else {
        idx := |pools|;
        Grow();
      }
    }

    /** The table is doubled; the new slots are not put on the free chain. */
    method Grow()
      requires Valid() && poolFreeHead < 0
      modifies this`pools, this`poolKind, this`shape
      ensures Reserved(View(), |old(pools)|) && View() == Grown(old(View()))
    {
      ghost var v := View();
      GrowReserves(v, Grown(v));
      var more := Wanted(|pools|) - |pools|;
      pools := Padded(pools, more, Unused());
      poolKind := Padded(poolKind, more, 0);
      shape := Grown(v).shape;
      assert View() == Grown(v);
    }

    /** The other half: the record is filled in and pushed on both chains. */
    method Initialise(idx: int, parent: int, zi: int)
      requires Reserved(View(), idx) && 0 <= zi <= zoneTop && (parent < 0 || Live(View(), parent))
      modifies this
      ensures Born(old(View()), View(), idx, parent, zi)
    {
      ghost var v := View();
      var r := pools[idx];
      r := r.(generation := r.generation + 1, live := true, parent := parent, zone := zi, color := zones[zi].color);
      r := r.(firstChild := -1, nextSibling := -1, zoneNext := -1, blocks := [], bytes := 0);
      r := r.(zoneNext := zones[zi].firstPool);
      zones := zones[zi := zones[zi].(firstPool := idx)];
      if parent >= 0 {
        r := r.(nextSibling := pools[parent].firstChild);
        pools := pools[parent := pools[parent].(firstChild := idx)];
      }
      pools := pools[idx := r];
      poolLiveN := poolLiveN + 1;
      shape := BornShape(shape, idx, parent, zi);
    }

    /** `extc_pool_new_at`. */
    method NewAt(parent: int, zi: int) returns (idx: int)
      requires Valid() && (parent < 0 || Live(View(), parent))
      modifies this
      ensures Valid()
      ensures zi < 0 || zi > old(zoneTop) ==> idx == -1 && View() == old(View())
      ensures 0 <= zi <= old(zoneTop) ==>
                Created(old(View()), View(), idx, parent, zi) && idx == old(NextSlot())
      ensures Evolves(old(View()), View())
    {
      SameEvolves(View(), View());
      if zi < 0 || zi > zoneTop {
        return -1;
      }
      ghost var v := View();
      idx := ReserveSlot();
      ghost var u := View();
      Initialise(idx, parent, zi);
      BornKeepsInv(u, View(), idx, parent, zi);
      if v.freeHead >= 0 {
        ReusedIsCreated(v, u, View(), idx, parent, zi);
      } else {
        GrowthIsGrownFrom(v, u);
        GrownIsCreated(v, u, View(), parent, zi);
      }
      CreatedEvolves(v, View(), idx, parent, zi);
    }

    /** The slot the next pool will get: the head of the free chain, or the first one of a growth. */
    function NextSlot(): int
      reads this
    {
      if poolFreeHead >= 0 then poolFreeHead else |pools|
    }

    /**
     `extc_pool_new`: in the current top zone.  The pool is a plain one exactly if its slot has never
     been an object table: creation leaves the kind byte of a reused slot as it was.
     */
    method New(parent: int) returns (idx: int)
      requires Valid() && (parent < 0 || Live(View(), parent))
      modifies this
      ensures Valid()
      ensures old(zoneTop) < 0 ==> idx == -1 && View() == old(View())
      ensures old(zoneTop) >= 0 ==>
                Created(old(View()), View(), idx, parent, old(zoneTop)) && idx == old(NextSlot())
      ensures old(zoneTop) >= 0 ==> (Kind(idx) == 0 <==> old(NextSlot() !in shape.tables))
      ensures Evolves(old(View()), View())
    {
      idx := NewAt(parent, zoneTop);
    }

    /** `extc_pool_new_table`: the same, and the slot's kind byte is set; nothing ever clears it. */
    method NewTable(parent: int) returns (idx: int, ghost made: View)
      requires Valid() && (parent < 0 || Live(View(), parent))
      modifies this
      ensures Valid()
      ensures old(zoneTop) < 0 ==> idx == -1 && View() == old(View())
      ensures old(zoneTop) >= 0 ==>
                && Inv(made) && Created(old(View()), made, idx, parent, old(zoneTop))
                && idx == old(NextSlot()) && View() == TableMarked(made, idx)
      ensures Evolves(old(View()), View())
    {
      ghost var v := View();
      idx := New(parent);
      made := View();
      if idx >= 0 {
        TableMarkedKeepsInv(made, idx);
        NewbornTableEvolves(v, made, idx, parent, v.zoneTop);
        poolKind := poolKind[idx := 1];
        shape := shape.(tables := shape.tables + {idx});
        assert View() == TableMarked(made, idx);
      }
    }

    /** `extc_pool_kind`. */
    function Kind(rid: int): (k: int)
      requires |poolKind| == |pools|
      reads this
      ensures k == -1 <==> !Live(View(), rid)
    {
      if rid < 0 || rid >= |pools| || !pools[rid].live then -1 else poolKind[rid]
    }

    /** `extc_pool_generation`: 0 stands for "no such live pool". */
    function Generation(rid: int): (g: nat)
      reads this
      ensures !Live(View(), rid) ==> g == 0
    {
      if rid < 0 || rid >= |pools| || !pools[rid].live then 0 else pools[rid].generation
    }

    /** The bookkeeping shared by the block operations: one pool's list, its byte count and the total. */
    method Reblock(rid: int, blocks: seq<Block>, delta: int)
      requires 0 <= rid < |pools| && delta == SumSizes(blocks) - SumSizes(pools[rid].blocks)
      modifies this`pools, this`poolBytesAll
      ensures View() == WithBlocks(old(View()), rid, blocks)
    {
      pools := pools[rid := pools[rid].(blocks := blocks, bytes := pools[rid].bytes + delta)];
      poolBytesAll := poolBytesAll + delta;
    }

    /** `extc_pool_take` and `extc_pool_take_raw`; `addr` is where the allocator put the block. */
    method Take(rid: int, bytes: int, addr: nat) returns (ptr: nat)
      requires Valid() && addr != 0 && AddrUnowned(pools, addr)
      modifies this
      ensures Valid()
      ensures !Live(old(View()), rid) ==> ptr == 0 && View() == old(View())
      ensures Live(old(View()), rid) ==>
                && ptr == addr
                && View() == WithBlocks(old(View()), rid,
                                        [Block(addr, if bytes <= 0 then 1 else bytes)] + old(pools)[rid].blocks)
      ensures Evolves(old(View()), View())
    {
      SameEvolves(View(), View());
      if rid < 0 || rid >= |pools| || !pools[rid].live {
        return 0;
      }
      var size := if bytes <= 0 then 1 else bytes;
      var b := Block(addr, size);
      assert ([b] + pools[rid].blocks)[1..] == pools[rid].blocks;
      TakeKeepsInv(View(), rid, b);
      BlocksEvolve(View(), rid, [b] + pools[rid].blocks);
      Reblock(rid, [b] + pools[rid].blocks, size);
      ptr := addr;
    }

    /** `extc_pool_give`: refused for an object table, 0 when the pool does not own such a block. */
    method Give(rid: int, p: nat) returns (r: Outcome)
      requires Valid()
      modifies this
      ensures Valid()
      ensures r == GiveOutcome(old(View()), rid, p)
      ensures r != Done(1) ==> View() == old(View())
      ensures r == Done(1) ==>
                exists i | 0 <= i < |old(pools)[rid].blocks| ::
                  && old(pools)[rid].blocks[i].addr == p
                  && View() == WithBlocks(old(View()), rid,
                                          old(pools)[rid].blocks[..i] + old(pools)[rid].blocks[i + 1..])
      ensures Evolves(old(View()), View())
    {
      SameEvolves(View(), View());
      if rid < 0 || rid >= |pools| || !pools[rid].live || p == 0 {
        return Done(0);
      }
      if poolKind[rid] != 0 {
        return Trapped;
      }
      var blocks := pools[rid].blocks;
      var i := FindBlock(blocks, p);
      if i == |blocks| {
        return Done(0);
      }
      SumAt(blocks, i, blocks[i]);
      GiveKeepsInv(View(), rid, i);
      BlocksEvolve(View(), rid, blocks[..i] + blocks[i + 1..]);
      Reblock(rid, blocks[..i] + blocks[i + 1..], -blocks[i].size);
      r := Done(1);
    }

    /**
     `extc_pool_resize` and `extc_pool_resize_raw`; `moved` is where the allocator puts the block,
     which may be where it was.
     */
    method Resize(rid: int, p: nat, bytes: int, moved: nat) returns (r: Outcome)
      requires Valid() && moved != 0 && (moved == p || AddrUnowned(pools, moved))
      modifies this
      ensures Valid()
      ensures r.Trapped? <==> Live(old(View()), rid) && p != 0 && old(poolKind)[rid] != 0
      ensures r.Trapped? || r == Done(0) ==> View() == old(View())
      ensures r.Done? && r.value != 0 <==>
                && Live(old(View()), rid) && p != 0 && old(poolKind)[rid] == 0
                && exists i | 0 <= i < |old(pools)[rid].blocks| :: old(pools)[rid].blocks[i].addr == p
      ensures r.Done? && r.value != 0 ==> r.value == moved
      ensures r.Done? && r.value != 0 ==>
                exists i | 0 <= i < |old(pools)[rid].blocks| ::
                  && old(pools)[rid].blocks[i].addr == p
                  && View() == WithBlocks(old(View()), rid,
                                          old(pools)[rid].blocks[i := Block(moved, if bytes <= 0 then 1 else bytes)])
      ensures Evolves(old(View()), View())
    {
      SameEvolves(View(), View());
      if rid < 0 || rid >= |pools| || !pools[rid].live || p == 0 {
        return Done(0);
      }
      if poolKind[rid] != 0 {
        return Trapped;
      }
      var size := if bytes <= 0 then 1 else bytes;
      var blocks := pools[rid].blocks;
      var i := FindBlock(blocks, p);
      if i == |blocks| {
        return Done(0);
      }
      var b := Block(moved, size);
      SumAt(blocks, i, b);
      ResizeKeepsInv(View(), rid, i, b);
      BlocksEvolve(View(), rid, blocks[i := b]);
      Reblock(rid, blocks[i := b], size - blocks[i].size);
      r := Done(moved);
    }

    /** `extc_pool_rowColor`. */
    function RowColor(rid: int): int
      requires Valid()
      reads this
    {
      if rid < 0 || rid >= |pools| || !pools[rid].live then -1
      else if pools[rid].zone < 0 || pools[rid].zone > zoneTop then -1
      else zones[pools[rid].zone].color
    }

    /** `extc_pool_birthColor`. */
    function BirthColor(rid: int): int
      reads this
    {
      if rid < 0 || rid >= |pools| || !pools[rid].live then -1 else pools[rid].color
    }

    /** In every reachable state a live pool's birth colour is the colour its zone has now. */
    lemma {:induction false} ColorsAgree(rid: int)
      requires Valid()
      ensures RowColor(rid) == BirthColor(rid)
      ensures Live(View(), rid) ==> 1 <= RowColor(rid) <= 7
    {
      if Live(View(), rid) {
        assert PoolOk(View(), rid) && ZoneOk(View(), pools[rid].zone);
      }
    }
  }

  // ---------------------------------------------------------------- the kind byte

  /** A pool that owns one block, asked to give it back. */
  ghost function Held(v: View, pool: int, size: int, addr: nat): View
    requires 0 <= pool < |v.pools|
  {
    WithBlocks(v, pool, [Block(addr, if size <= 0 then 1 else size)])
  }

  lemma {:induction false} HeldGivesBack(v: View, pool: int, size: int, addr: nat)
    requires Inv(v) && Live(v, pool) && v.pools[pool].blocks == [] && v.pools[pool].bytes == 0 && addr != 0
    ensures GiveOutcome(Held(v, pool, size, addr), pool, addr) == if v.kind[pool] == 0 then Done(1) else Trapped
    ensures WithBlocks(Held(v, pool, size, addr), pool, []) == v
  {
    var w := Held(v, pool, size, addr);
    assert w.pools[pool].blocks[0] in w.pools[pool].blocks;
    assert w.pools[pool := v.pools[pool]] == v.pools;
  }

  /**
   A pool is made, takes a block and is asked to give that block back: it does exactly if its slot
   has never been an object table, and otherwise traps with the block still taken.
   */
  method NewTakeGive(reg: Registry, parent: int, size: int, addr: nat)
    returns (pool: int, r: Outcome, ghost made: View, ghost held: View)
    requires reg.Valid() && reg.zoneTop >= 0 && (parent < 0 || Live(reg.View(), parent))
    requires addr != 0 && AddrUnowned(reg.pools, addr)
    modifies reg
    ensures reg.Valid() && Inv(made) && Created(old(reg.View()), made, pool, parent, old(reg.zoneTop))
    ensures pool == old(reg.NextSlot())
    ensures held == Held(made, pool, size, addr) && r == GiveOutcome(held, pool, addr)
    ensures r == if old(reg.NextSlot() in reg.shape.tables) then Trapped else Done(1)
    ensures reg.View() == if r.Trapped? then held else made
  {
    pool, made := NewTake(reg, parent, size, addr);
    held := reg.View();
    r := GiveOnly(reg, made, pool, size, addr);
  }

  /** A pool is asked to give its only block back. */
  method GiveOnly(reg: Registry, ghost made: View, pool: int, size: int, addr: nat) returns (r: Outcome)
    requires Inv(made) && Live(made, pool) && made.pools[pool].blocks == [] && made.pools[pool].bytes == 0
    requires reg.Valid() && reg.View() == Held(made, pool, size, addr) && addr != 0
    modifies reg
    ensures reg.Valid() && r == GiveOutcome(old(reg.View()), pool, addr)
    ensures r == if made.kind[pool] == 0 then Done(1) else Trapped
    ensures reg.View() == if r.Trapped? then old(reg.View()) else made
  {
    ghost var held := reg.View();
    HeldGivesBack(made, pool, size, addr);
    r := reg.Give(pool, addr);
    if r == Done(1) {
      var blocks := held.pools[pool].blocks;
      ghost var i :| 0 <= i < |blocks| && reg.View() == WithBlocks(held, pool, blocks[..i] + blocks[i + 1..]);
      OnlyBlockGone(made, reg.View(), pool, size, addr, i);
    }
  }

  lemma {:induction false} OnlyBlockGone(v: View, w: View, pool: int, size: int, addr: nat, i: nat)
    requires 0 <= pool < |v.pools| && v.pools[pool].blocks == [] && v.pools[pool].bytes == 0
    requires var h := Held(v, pool, size, addr); var blocks := h.pools[pool].blocks;
             i < |blocks| && w == WithBlocks(h, pool, blocks[..i] + blocks[i + 1..])
    ensures w == v
  {
    var h := Held(v, pool, size, addr);
    assert h.pools[pool].blocks[..i] + h.pools[pool].blocks[i + 1..] == [];
    assert h.pools[pool := v.pools[pool]] == v.pools;
  }

  /** A pool is made and takes its first block. */
  method NewTake(reg: Registry, parent: int, size: int, addr: nat) returns (pool: int, ghost made: View)
    requires reg.Valid() && reg.zoneTop >= 0 && (parent < 0 || Live(reg.View(), parent))
    requires addr != 0 && AddrUnowned(reg.pools, addr)
    modifies reg
    ensures reg.Valid() && Inv(made) && Created(old(reg.View()), made, pool, parent, old(reg.zoneTop))
    ensures pool == old(reg.NextSlot()) && reg.View() == Held(made, pool, size, addr)
    ensures made.kind[pool] == 0 <==> old(reg.NextSlot() !in reg.shape.tables)
  {
    ghost var v := reg.View();
    pool := reg.New(parent);
    made := reg.View();
    CreatedOwnsNothing(v, made, pool, parent, v.zoneTop, addr);
    var ptr := reg.Take(pool, size, addr);
    FirstBlock(made, reg.View(), pool, size, addr);
  }

  lemma {:induction false} FirstBlock(v: View, w: View, pool: int, size: int, addr: nat)
    requires 0 <= pool < |v.pools| && v.pools[pool].blocks == []
    requires w == WithBlocks(v, pool, [Block(addr, if size <= 0 then 1 else size)] + v.pools[pool].blocks)
    ensures w == Held(v, pool, size, addr)
  {
    var b := Block(addr, if size <= 0 then 1 else size);
    assert [b] + [] == [b];
  }

  /** An object table is made and dropped; its slot heads the free chain and keeps the kind byte. */
  method MakeAndDropTable(stale: Zone) returns (reg: Registry, slot: int)
    ensures fresh(reg) && reg.Valid() && reg.zoneTop == 0 && AllUnowned(reg.pools)
    ensures 0 <= slot == reg.poolFreeHead && slot in reg.shape.tables
  {
    reg, slot := MakeTable(stale);
    ghost var v := reg.View();
    reg.Drop(slot);
    OnlyPoolDropped(v, reg.View(), slot);
  }

  method MakeTable(stale: Zone) returns (reg: Registry, slot: int)
    ensures fresh(reg) && reg.Valid() && reg.zoneTop == 0 && slot in reg.shape.tables
    ensures Live(reg.View(), slot) && forall p | Live(reg.View(), p) :: p == slot
  {
    reg := new Registry();
    var z := reg.ZoneEnter(stale);
    ghost var empty := reg.View();
    ghost var made;
    slot, made := reg.NewTable(-1);
    OnlyOneLive(empty, made, slot);
  }

  lemma {:induction false} OnlyOneLive(u: View, w: View, x: int)
    requires Sizes(u) && Sizes(w) && u.pools == [] && Created(u, w, x, -1, 0)
    ensures Live(w, x) && forall p | Live(w, p) :: p == x
  {
  }

  lemma {:induction false} OnlyPoolDropped(v: View, w: View, x: int)
    requires Sizes(v) && Inv(w) && Live(v, x) && (forall p | Live(v, p) :: p == x)
    requires Killed(v, w, Tree(v, x))
    ensures w.freeHead == x && AllUnowned(w.pools)
  {
    assert Under(v.pools, v.shape.birth, x, x);
    assert Tree(v, x) == {x};
    OnlyPoolKilled(v, w, x);
  }

  lemma {:induction false} OnlyPoolKilled(v: View, w: View, x: int)
    requires Sizes(v) && Inv(w) && Live(v, x) && (forall p | Live(v, p) :: p == x) && Killed(v, w, {x})
    ensures w.freeHead == x && AllUnowned(w.pools) && forall p :: !Live(w, p)
  {
    HeadIsDropped(v, w, x);
    forall p | 0 <= p < |w.pools| ensures !w.pools[p].live {
      assert p == x || Kept(v.pools[p], w.pools[p]);
      assert p != x ==> !Live(v, p);
    }
    NoneLive(w);
  }

  lemma {:induction false} NoneLive(w: View)
    requires BlocksOk(w) && forall p | 0 <= p < |w.pools| :: !w.pools[p].live
    ensures AllUnowned(w.pools)
  {
  }

  ghost predicate AllUnowned(pools: seq<Pool>) {
    forall p | 0 <= p < |pools| :: pools[p].blocks == []
  }

  lemma {:induction false} HeadIsDropped(v: View, w: View, x: int)
    requires Sizes(v) && Inv(w) && Killed(v, w, {x})
    ensures w.freeHead == x
  {
    FreedHead(v.shape.freeChain, w.shape.freeChain, {x}, x);
  }

  lemma {:induction false} FreedHead(before: seq<int>, after: seq<int>, d: set<int>, x: int)
    requires FreedInto(before, after, d) && d == {x}
    ensures after != [] && after[0] == x
  {
    assert x in d && x in after[..|after| - |before|];
    var first := after[..|after| - |before|][0];
    assert first in after[..|after| - |before|];
    assert first in d;
  }

  /**
   A run in which a plain pool takes over a dropped object table's slot, takes a block, and traps when
   it is asked to give that block back.
   */
  method TableSlotReused(stale: Zone, size: int, addr: nat)
    returns (reg: Registry, pool: int, r: Outcome, ghost before: View, ghost made: View)
    requires addr != 0
    ensures reg.Valid() && Inv(before) && Inv(made) && Created(before, made, pool, -1, 0)
    ensures pool in before.shape.tables && !Live(before, pool)
    ensures reg.View() == Held(made, pool, size, addr) && OwnsAddr(reg.View(), pool, addr)
    ensures r == Trapped == GiveOutcome(reg.View(), pool, addr)
  {
    var slot;
    ghost var held;
    reg, slot := MakeAndDropTable(stale);
    before := reg.View();
    pool, r, made, held := NewTakeGive(reg, -1, size, addr);
    assert held.pools[pool].blocks[0] in held.pools[pool].blocks;
  }
}
