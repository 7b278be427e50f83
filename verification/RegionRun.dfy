/**
 What each operation on the block heap does to it, and what that means for whole runs: whatever is
 reachable stays, in-edge sets stay complete and live, and the self-check never counts anything.
 */
module RegionRun {
  import opened Chains
  import opened HeapState
  import opened Marking
  import opened RegionState

  ghost predicate RegionsKnown(m: Mem) {
    forall x | x in m.blocks :: 0 <= m.blocks[x].rid < |m.freel|
  }

  // ---------------------------------------------------------------- sweeping a chain

  /** Block `i` of chain `k` is unlinked and freed. */
  ghost function Dropped(m: Mem, k: int, i: int, reuse: bool): Mem
    requires Inv(m) && RegionsKnown(m) && 0 <= k < |m.chains| && 0 <= i < |m.chains[k]|
  {
    assert ChainOk(m, k) && LinkOk(m, k, i);
    UnlinkedSame(m, k, i, m.chains[k][i]);
    Released(Unlinked(m, k, i), m.chains[k][i], reuse)
  }

  lemma {:induction false} DroppedInOrder(m: Mem, k: int, i: int, reuse: bool)
    requires Inv(m) && RegionsKnown(m) && 0 <= k < |m.chains| && 0 <= i < |m.chains[k]|
    ensures var v, x := Unlinked(m, k, i), m.chains[k][i];
            x in v.blocks && 0 <= v.blocks[x].rid < |v.freel| == |v.frees|
    ensures var w := Dropped(m, k, i, reuse);
            && Inv(w) && RegionsKnown(w)
            && w.chains == m.chains[k := m.chains[k][..i] + m.chains[k][i + 1..]]
  {
    var x := m.chains[k][i];
    assert ChainOk(m, k) && LinkOk(m, k, i);
    UnlinkedSame(m, k, i, x);
    UnlinkedKeepsInv(m, k, i);
    ReleasedKeepsInv(Unlinked(m, k, i), x, reuse);
    UnlinkedKnown(m, k, i);
  }

  lemma {:induction false} UnlinkedKnown(m: Mem, k: int, i: int)
    requires Inv(m) && RegionsKnown(m) && 0 <= k < |m.chains| && 0 <= i < |m.chains[k]|
    ensures RegionsKnown(Unlinked(m, k, i))
  {
    forall y | y in m.blocks ensures 0 <= Unlinked(m, k, i).blocks[y].rid < |m.freel| {
      UnlinkedSame(m, k, i, y);
    }
  }

  /** The sweep of chain `k` from its `i`-th block on: blocks in `d` stay, the others are unlinked and freed. */
  ghost function SweptFrom(m: Mem, k: int, i: int, d: set<int>, reuse: bool): Mem
    requires Inv(m) && RegionsKnown(m) && 0 <= k < |m.chains| && 0 <= i <= |m.chains[k]|
    decreases |m.chains[k]| - i
  {
    if i == |m.chains[k]| then m
    else if m.chains[k][i] in d then SweptFrom(m, k, i + 1, d, reuse)
    else
      DroppedInOrder(m, k, i, reuse);
      SweptFrom(Dropped(m, k, i, reuse), k, i, d, reuse)
  }

  /** Exactly the blocks outside `d` go. */
  lemma {:induction false} SweptClears(m0: Mem, m: Mem, k: int, i: int, d: set<int>, gone: set<int>, reuse: bool)
    requires Inv(m0) && Inv(m) && RegionsKnown(m) && Cleared(m0, m, k, gone) && 0 <= i <= |m.chains[k]|
    requires SentBack(m, gone, reuse)
    requires (forall x | x in gone :: x !in d) && forall j | 0 <= j < i :: m.chains[k][j] in d
    ensures var w := SweptFrom(m, k, i, d, reuse);
            && Inv(w) && RegionsKnown(w) && Cleared(m0, w, k, Unmarked(m0, k, d))
            && SentBack(w, Unmarked(m0, k, d), reuse)
    decreases |m.chains[k]| - i
  {
    if i == |m.chains[k]| {
      RestIsUnmarked(m0, m, k, d, gone);
    } else if m.chains[k][i] in d {
      SweptClears(m0, m, k, i + 1, d, gone, reuse);
    } else {
      DroppedInOrder(m, k, i, reuse);
      assert ChainOk(m, k) && LinkOk(m, k, i);
      ClearedMore(m0, m, k, gone, i, reuse);
      SweptClears(m0, Dropped(m, k, i, reuse), k, i, d, gone + {m.chains[k][i]}, reuse);
    }
  }

  lemma {:induction false} RestIsUnmarked(m0: Mem, m: Mem, k: int, d: set<int>, gone: set<int>)
    requires Cleared(m0, m, k, gone) && forall j | 0 <= j < |m.chains[k]| :: m.chains[k][j] in d
    requires forall x | x in gone :: x !in d
    ensures gone == Unmarked(m0, k, d)
  {
    RestIsMarked(m0.chains[k], m.chains[k], gone, d);
    forall x ensures x in gone <==> x in Unmarked(m0, k, d) {
    }
  }

  lemma {:induction false} RestIsMarked(before: seq<int>, after: seq<int>, gone: set<int>, d: set<int>)
    requires after == Without(before, gone) && forall j | 0 <= j < |after| :: after[j] in d
    ensures forall x | x in before && x !in d :: x in gone
  {
    forall x | x in before && x !in d ensures x in gone {
      WithoutMember(before, gone, x);
    }
  }

  lemma {:induction false} ClearedNothing(m: Mem, k: int)
    requires Inv(m) && 0 <= k < |m.chains|
    ensures Cleared(m, m, k, {})
  {
    WithoutNone(m.chains[k], {});
    assert m.chains[k := m.chains[k]] == m.chains;
  }

  lemma {:induction false} SweptWhole(m: Mem, k: int, d: set<int>, reuse: bool)
    requires Inv(m) && RegionsKnown(m) && 0 <= k < |m.chains|
    ensures var w := SweptFrom(m, k, 0, d, reuse);
            && Inv(w) && RegionsKnown(w) && Cleared(m, w, k, Unmarked(m, k, d))
            && SentBack(w, Unmarked(m, k, d), reuse)
  {
    ClearedNothing(m, k);
    SweptClears(m, m, k, 0, d, {}, reuse);
  }

  lemma {:induction false} DroppedBlock(m: Mem, k: int, i: int, reuse: bool, y: int)
    requires Inv(m) && RegionsKnown(m) && 0 <= k < |m.chains| && 0 <= i < |m.chains[k]|
    ensures var w := Dropped(m, k, i, reuse);
            && (y in w.blocks ==> y in m.blocks && SameBlock(m.blocks[y], w.blocks[y]))
            && (y in m.blocks && y != m.chains[k][i] ==> y in w.blocks)
  {
    assert ChainOk(m, k) && LinkOk(m, k, i);
    UnlinkedSame(m, k, i, m.chains[k][i]);
    if y in m.blocks {
      UnlinkedSame(m, k, i, y);
    }
  }

  /** A sweep makes no block and changes none but for its links, free ones included. */
  lemma {:induction false} SweptBlock(m: Mem, k: int, i: int, d: set<int>, reuse: bool, y: int)
    requires Inv(m) && RegionsKnown(m) && 0 <= k < |m.chains| && 0 <= i <= |m.chains[k]|
    ensures var w := SweptFrom(m, k, i, d, reuse);
            y in w.blocks ==> y in m.blocks && SameBlock(m.blocks[y], w.blocks[y])
    decreases |m.chains[k]| - i
  {
    if i == |m.chains[k]| {
    } else if m.chains[k][i] in d {
      SweptBlock(m, k, i + 1, d, reuse, y);
    } else {
      DroppedInOrder(m, k, i, reuse);
      DroppedBlock(m, k, i, reuse, y);
      SweptBlock(Dropped(m, k, i, reuse), k, i, d, reuse, y);
    }
  }

  lemma {:induction false} SweptSends(m: Mem, k: int, d: set<int>, reuse: bool)
    requires Inv(m) && RegionsKnown(m) && 0 <= k < |m.chains|
    ensures SentBack(SweptFrom(m, k, 0, d, reuse), Unmarked(m, k, d), reuse)
  {
    SweptWhole(m, k, d, reuse);
  }

  // ---------------------------------------------------------------- allocating a block

  /** The header of a new block; the link fields are set when it is put on a chain. */
  function NewBlock(b: Block, rid: int, n: int, pointers: nat): Block {
    b.(cap := n, mark := 0, rid := rid, rsmark := 0, vmark := 0, ptrs := Nulls(pointers))
  }

  function Nulls(pointers: nat): (ptrs: seq<int>)
    ensures |ptrs| == pointers && forall y | y in ptrs :: y == -1
  {
    seq(pointers, _ => -1)
  }

  /** Is the head of the region's free list large enough. */
  predicate Recycles(m: Mem, rid: int, n: int, reuse: bool)
    requires 0 <= rid < |m.freel|
  {
    reuse && m.freel[rid] >= 0 && m.freel[rid] in m.blocks && m.blocks[m.freel[rid]].cap >= n
  }

  ghost predicate CanTake(m: Mem, rid: int, addr: int) {
    Inv(m) && RegionsKnown(m) && 0 <= rid < |m.top| && addr >= 0 && addr !in m.blocks
  }

  /** The heap once the memory for a block has been found, and where that is. */
  ghost function Taken(m: Mem, rid: int, n: int, addr: int, reuse: bool): Mem
    requires CanTake(m, rid, addr)
  {
    if Recycles(m, rid, n, reuse) then
      RecycledKeepsInv(m, rid);
      Recycled(m, rid)
    else
      Carved(m, addr, Block(-1, TopOf(rid), n, 0, rid, 0, 0, []))
  }

  function Spot(m: Mem, rid: int, n: int, addr: int, reuse: bool): int
    requires 0 <= rid < |m.freel|
  {
    if Recycles(m, rid, n, reuse) then m.freel[rid] else addr
  }

  lemma {:induction false} TakenInOrder(m: Mem, rid: int, n: int, addr: int, reuse: bool)
    requires CanTake(m, rid, addr)
    ensures var u, x := Taken(m, rid, n, addr, reuse), Spot(m, rid, n, addr, reuse);
            && Inv(u) && RegionsKnown(u) && x >= 0 && x in u.home && u.home[x] == Loose && x in u.blocks
            && !IsUsed(m, x) && u.home == m.home[x := Loose] && u.chains == m.chains
            && u.blocks.Keys == m.blocks.Keys + {x}
            && forall y | y in m.blocks && y != x :: u.blocks[y] == m.blocks[y]
  {
    if Recycles(m, rid, n, reuse) {
      RecycledKeepsInv(m, rid);
    } else {
      CarvedKeepsInv(m, addr, Block(-1, TopOf(rid), n, 0, rid, 0, 0, []));
    }
  }

  ghost function WithBlock(m: Mem, x: int, b: Block): Mem {
    m.(blocks := m.blocks[x := b])
  }

  /** The heap with a new block on top of arena `a`. */
  ghost function Allocated(m: Mem, a: int, rid: int, n: int, pointers: nat, addr: int, reuse: bool): Mem
    requires CanTake(m, rid, addr) && 0 <= a < |m.top|
  {
    TakenInOrder(m, rid, n, addr, reuse);
    var u, x := Taken(m, rid, n, addr, reuse), Spot(m, rid, n, addr, reuse);
    SetUpInOrder(u, x, rid, n, pointers);
    Pushed(WithBlock(u, x, NewBlock(u.blocks[x], rid, n, pointers)), a, x)
  }

  lemma {:induction false} SetUpInOrder(u: Mem, x: int, rid: int, n: int, pointers: nat)
    requires Inv(u) && x in u.blocks
    ensures Inv(WithBlock(u, x, NewBlock(u.blocks[x], rid, n, pointers)))
    ensures RegionsKnown(u) && 0 <= rid < |u.freel| ==>
              RegionsKnown(WithBlock(u, x, NewBlock(u.blocks[x], rid, n, pointers)))
  {
    SameLinksKeepInv(u, WithBlock(u, x, NewBlock(u.blocks[x], rid, n, pointers)));
  }

  lemma {:induction false} PushedInOrder(m: Mem, a: int, x: int)
    requires Inv(m) && RegionsKnown(m) && 0 <= a < |m.chains| && x in m.home && m.home[x] == Loose && x >= 0
    ensures var w := Pushed(m, a, x);
            && Inv(w) && RegionsKnown(w) && SameBlocks(m.blocks, w.blocks)
  {
    PushedKeepsInv(m, a, x);
    assert ChainOk(m, a) && (m.top[a] >= 0 ==> LinkOk(m, a, 0));
  }

  /** What allocating does: one block more, that was not in use; all others as they were. */
  lemma {:induction false} AllocatedInOrder(m: Mem, a: int, rid: int, n: int, pointers: nat, addr: int, reuse: bool)
    requires CanTake(m, rid, addr) && 0 <= a < |m.top|
    ensures var w, x := Allocated(m, a, rid, n, pointers, addr, reuse), Spot(m, rid, n, addr, reuse);
            && Inv(w) && RegionsKnown(w) && NewIn(m, w, x) && w.home[x] == Used(a)
            && w.chains == m.chains[a := [x] + m.chains[a]]
            && w.blocks[x].cap == n && w.blocks[x].rid == rid && w.blocks[x].rsmark == 0
            && w.blocks[x].ptrs == Nulls(pointers)
  {
    TakenInOrder(m, rid, n, addr, reuse);
    var u, x := Taken(m, rid, n, addr, reuse), Spot(m, rid, n, addr, reuse);
    SetUpInOrder(u, x, rid, n, pointers);
    var v := WithBlock(u, x, NewBlock(u.blocks[x], rid, n, pointers));
    PushedInOrder(v, a, x);
    NewAmongOthers(m, u, Pushed(v, a, x), x, a);
  }

  /** A block `x` that was not in use has come into use; every other one is as it was. */
  ghost predicate NewIn(m: Mem, w: Mem, x: int) {
    && !IsUsed(m, x) && IsUsed(w, x) && x in w.blocks && |w.chains| == |m.chains|
    && (forall y {:trigger KeptBlock(m, w, y)} | y in m.home && y != x :: KeptBlock(m, w, y))
    && forall y | y in w.home && y != x :: y in m.home && w.home[y] == m.home[y]
  }

  lemma {:induction false} NewAmongOthers(m: Mem, u: Mem, w: Mem, x: int, a: int)
    requires m.home.Keys == m.blocks.Keys && !IsUsed(m, x) && u.home == m.home[x := Loose]
    requires u.blocks.Keys == m.blocks.Keys + {x} && (forall y | y in m.blocks && y != x :: u.blocks[y] == m.blocks[y])
    requires w.blocks.Keys == u.blocks.Keys && w.home == u.home[x := Used(a)] && |w.chains| == |m.chains|
    requires forall y | y in u.blocks && y != x :: SameBlock(u.blocks[y], w.blocks[y])
    ensures NewIn(m, w, x)
  {
    forall y | y in m.home && y != x ensures KeptBlock(m, w, y) {}
  }

  /** If the arena is the region's own, the regions stay in order. */
  lemma {:induction false} AllocatedKeepsRegions(m: Mem, rid: int, n: int, pointers: nat, addr: int, reuse: bool,
          rs: seq<seq<int>>, roots: seq<int>)
    requires CanTake(m, rid, addr) && RegionInv(m, rs, roots)
    ensures RegionInv(Allocated(m, rid, rid, n, pointers, addr, reuse), rs, roots)
  {
    AllocatedInOrder(m, rid, rid, n, pointers, addr, reuse);
    NewKeepsRegions(m, Allocated(m, rid, rid, n, pointers, addr, reuse), rs, roots, Spot(m, rid, n, addr, reuse));
  }

  // ---------------------------------------------------------------- writing a pointer

  /** Does a pointer to `v` written into `x` lead out of its region. */
  predicate Crosses(blocks: map<int, Block>, x: int, v: int) {
    v >= 0 && v in blocks && x in blocks && blocks[v].rid != blocks[x].rid
  }

  /** The blocks after `v` has been written into pointer `i` of `x`, and registered if it leads out of the region. */
  function Written(blocks: map<int, Block>, x: int, i: int, v: int): map<int, Block>
    requires x in blocks && 0 <= i < |blocks[x].ptrs|
  {
    var b := blocks[x := blocks[x].(ptrs := blocks[x].ptrs[i := v])];
    if Crosses(blocks, x, v) then b[v := b[v].(rsmark := RS_EPOCH)] else b
  }

  /** The in-edge sets after that. */
  function Registered(blocks: map<int, Block>, rs: seq<seq<int>>, x: int, v: int): seq<seq<int>>
    requires Crosses(blocks, x, v) ==> 0 <= blocks[v].rid < |rs|
  {
    if Crosses(blocks, x, v) && blocks[v].rsmark != RS_EPOCH then rs[blocks[v].rid := rs[blocks[v].rid] + [v]] else rs
  }

  ghost predicate CanWrite(m: Mem, x: int, i: int, v: int) {
    && IsUsed(m, x) && x in m.blocks && 0 <= i < |m.blocks[x].ptrs|
    && (v < 0 || (IsUsed(m, v) && v in m.blocks))
  }

  lemma {:induction false} WrittenKeepsRegions(m: Mem, rs: seq<seq<int>>, roots: seq<int>, x: int, i: int, v: int)
    requires RegionInv(m, rs, roots) && CanWrite(m, x, i, v)
    ensures Crosses(m.blocks, x, v) ==> 0 <= m.blocks[v].rid < |rs|
    ensures RegionInv(m.(blocks := Written(m.blocks, x, i, v)), Registered(m.blocks, rs, x, v), roots)
  {
    assert BlockOk(m, rs, x) && (v >= 0 ==> BlockOk(m, rs, v));
    var w := m.(blocks := Written(m.blocks, x, i, v));
    if !Crosses(m.blocks, x, v) {
      PointKeepsRegions(m, w, rs, roots, x, i, v);
    } else if m.blocks[v].rsmark == RS_EPOCH {
      assert w.blocks == m.blocks[x := m.blocks[x].(ptrs := m.blocks[x].ptrs[i := v])];
      PointKeepsRegions(m, w, rs, roots, x, i, v);
    } else {
      WrittenAndRegistered(m, rs, roots, x, i, v);
    }
  }

  lemma {:induction false} WrittenAndRegistered(m: Mem, rs: seq<seq<int>>, roots: seq<int>, x: int, i: int, v: int)
    requires RegionInv(m, rs, roots) && CanWrite(m, x, i, v) && Crosses(m.blocks, x, v)
    requires 0 <= m.blocks[v].rid < |rs| && m.blocks[v].rsmark != RS_EPOCH
    ensures RegionInv(m.(blocks := Written(m.blocks, x, i, v)), Registered(m.blocks, rs, x, v), roots)
  {
    var m1 := m.(blocks := m.blocks[v := m.blocks[v].(rsmark := RS_EPOCH)]);
    var rs1 := Registered(m.blocks, rs, x, v);
    var w := m.(blocks := Written(m.blocks, x, i, v));
    RegisterKeepsRegions(m, m1, rs, rs1, roots, v);
    assert w.blocks == m1.blocks[x := m1.blocks[x].(ptrs := m1.blocks[x].ptrs[i := v])];
    assert PointerOk(m1, rs1, m1.blocks[x].rid, v);
    PointKeepsRegions(m1, w, rs1, roots, x, i, v);
  }

  // ---------------------------------------------------------------- moments and steps

  /** The heap, the in-edge sets, the program's roots and the self-check's counter at one moment. */
  datatype Moment = Moment(m: Mem, rs: seq<seq<int>>, roots: seq<int>, bad: int)

  ghost predicate InOrder(a: Moment) {
    Inv(a.m) && RegionsKnown(a.m) && RegionInv(a.m, a.rs, a.roots)
  }

  ghost predicate Reachable(a: Moment, x: int) {
    Reach(a.m.blocks, Everywhere, RootSet(a.roots), x)
  }

  /** The same block, in use in the same arena; its pointers and marks may have changed. */
  ghost predicate SameObject(a: Moment, b: Moment, x: int) {
    && x in a.m.home && x in a.m.blocks && a.m.home[x].Used? && x in b.m.home && b.m.home[x] == a.m.home[x]
    && x in b.m.blocks && b.m.blocks[x].rid == a.m.blocks[x].rid && b.m.blocks[x].cap == a.m.blocks[x].cap
  }

  /** The blocks of a region among `v` that the region's own mark `d` has missed. */
  ghost function Overlooked(blocks: map<int, Block>, v: set<int>, rid: int, d: set<int>): set<int> {
    set x | x in v && x in blocks && blocks[x].rid == rid && x !in d
  }

  /** The self-check counts nothing exactly if all that it visits in the region has been found. */
  lemma {:induction false} NothingOverlookedIff(blocks: map<int, Block>, v: set<int>, rid: int, d: set<int>)
    ensures |Overlooked(blocks, v, rid, d)| == 0 <==> forall x | x in v && x in blocks && blocks[x].rid == rid :: x in d
  {
    var o := Overlooked(blocks, v, rid, d);
    forall x | x in v && x in blocks && blocks[x].rid == rid ensures x in d <==> x !in o {}
    if forall x | x in v && x in blocks && blocks[x].rid == rid :: x in d {
      assert forall x :: x !in o;
      assert o == {};
    }
  }

  /**
   What the program and the collector do, one at a time: allocate, write a pointer, write a root, sweep
   a region.  A sweep comes with what its mark found from `own` and the in-edge set, with what the
   self-check visited if it ran, and with the blocks as the marks left them.
   */
  datatype Step =
    | Allocates(rid: int, n: int, pointers: nat, addr: int, reuse: bool)
    | Writes(x: int, i: int, v: int)
    | SetsRoot(slot: int, v: int)
    | Sweeps(rid: int, own: seq<int>, d: set<int>, check: bool, visited: set<int>, marked: map<int, Block>, reuse: bool)

  ghost predicate SweepSees(a: Moment, s: Step)
    requires s.Sweeps?
  {
    && 0 <= s.rid < |a.rs| && 0 <= s.rid < |a.m.chains| && Covers(a.m, s.rid, s.own, a.roots)
    && IsReached(a.m.blocks, Within(s.rid), Seeds(a.rs, s.rid, s.own), s.d)
    && (s.check ==> IsReached(a.m.blocks, Everywhere, RootSet(a.roots), s.visited))
    && Remarked(a.m.blocks, s.marked)
  }

  /** From `a` to `b` exactly what the operation's code does. */
  ghost predicate Stepped(a: Moment, b: Moment, s: Step)
    requires Inv(a.m) && RegionsKnown(a.m)
  {
    match s
    case Allocates(rid, n, pointers, addr, reuse) =>
      CanTake(a.m, rid, addr) && b == a.(m := Allocated(a.m, rid, rid, n, pointers, addr, reuse))
    case Writes(x, i, v) =>
      && CanWrite(a.m, x, i, v) && (Crosses(a.m.blocks, x, v) ==> 0 <= a.m.blocks[v].rid < |a.rs|)
      && b == a.(m := a.m.(blocks := Written(a.m.blocks, x, i, v)), rs := Registered(a.m.blocks, a.rs, x, v))
    case SetsRoot(slot, v) =>
      && 0 <= slot < |a.roots| && (v < 0 || (IsUsed(a.m, v) && v in a.m.blocks))
      && b == a.(roots := a.roots[slot := v])
    case Sweeps(rid, own, d, check, visited, marked, reuse) =>
      && SweepSees(a, s)
      && (RemarkedLinks(a.m, marked);
          b == a.(m := SweptFrom(a.m.(blocks := marked), rid, 0, d, reuse),
                  bad := a.bad + if check then |Overlooked(a.m.blocks, visited, rid, d)| else 0))
  }

  lemma {:induction false} RemarkedLinks(m: Mem, marked: map<int, Block>)
    requires Inv(m) && RegionsKnown(m) && Remarked(m.blocks, marked)
    ensures Inv(m.(blocks := marked)) && RegionsKnown(m.(blocks := marked))
  {
    SameLinksKeepInv(m, m.(blocks := marked));
  }

  /** What a step does to a heap in order: it stays in order, what is reachable stays, nothing is found bad. */
  ghost predicate Safe(a: Moment, b: Moment) {
    && InOrder(b) && b.bad == a.bad
    && forall x {:trigger SameObject(a, b, x)} | Reachable(a, x) :: SameObject(a, b, x)
  }

  lemma {:induction false} StepIsSafe(a: Moment, b: Moment, s: Step)
    requires InOrder(a) && Stepped(a, b, s)
    ensures Safe(a, b)
  {
    match s
    case Allocates(rid, n, pointers, addr, reuse) => AllocationIsSafe(a, b, s);
    case Writes(x, i, v) => WriteIsSafe(a, b, s);
    case SetsRoot(slot, v) => UsedIsKept(a, b);
    case Sweeps(rid, own, d, check, visited, marked, reuse) => SweepIsSafe(a, b, s);
  }

  /** A step that keeps every block in use keeps what is reachable. */
  lemma {:induction false} UsedIsKept(a: Moment, b: Moment)
    requires InOrder(a)
    requires forall x {:trigger SameObject(a, b, x)} | IsUsed(a.m, x) && x in a.m.blocks :: SameObject(a, b, x)
    ensures forall x {:trigger SameObject(a, b, x)} | Reachable(a, x) :: SameObject(a, b, x)
  {
    forall x | Reachable(a, x) ensures SameObject(a, b, x) {
      ReachableIsUsed(a.m, a.rs, a.roots, x);
    }
  }

  lemma {:induction false} AllocationIsSafe(a: Moment, b: Moment, s: Step)
    requires InOrder(a) && Stepped(a, b, s) && s.Allocates?
    ensures Safe(a, b)
  {
    AllocatedInOrder(a.m, s.rid, s.rid, s.n, s.pointers, s.addr, s.reuse);
    AllocatedKeepsRegions(a.m, s.rid, s.n, s.pointers, s.addr, s.reuse, a.rs, a.roots);
    var x := Spot(a.m, s.rid, s.n, s.addr, s.reuse);
    forall y | IsUsed(a.m, y) && y in a.m.blocks ensures SameObject(a, b, y) {
      assert KeptBlock(a.m, b.m, y);
    }
    UsedIsKept(a, b);
  }

  lemma {:induction false} WriteIsSafe(a: Moment, b: Moment, s: Step)
    requires InOrder(a) && Stepped(a, b, s) && s.Writes?
    ensures Safe(a, b)
  {
    SameLinksKeepInv(a.m, b.m);
    WrittenKeepsRegions(a.m, a.rs, a.roots, s.x, s.i, s.v);
    UsedIsKept(a, b);
  }

  lemma {:induction false} SweepIsSafe(a: Moment, b: Moment, s: Step)
    requires InOrder(a) && Stepped(a, b, s) && s.Sweeps?
    ensures Safe(a, b)
  {
    var u := a.m.(blocks := s.marked);
    RemarkedLinks(a.m, s.marked);
    RemarkedKeepsRegions(a.m, u, a.rs, a.roots);
    RemarkedReach(a.m.blocks, s.marked, Within(s.rid), Seeds(a.rs, s.rid, s.own), s.d);
    SweptWhole(u, s.rid, s.d, s.reuse);
    SweepKeepsRegions(u, b.m, a.rs, a.roots, s.rid, s.own, s.d);
    forall x | Reachable(a, x) ensures SameObject(a, b, x) {
      SameReach(a.m.blocks, s.marked, Everywhere, RootSet(a.roots), x);
      SweepKeepsReachable(u, b.m, a.rs, a.roots, s.rid, s.own, s.d, x);
    }
    if s.check {
      NothingOverlooked(a.m, a.rs, a.roots, s.rid, s.own, s.d, s.visited);
    }
  }

  lemma {:induction false} RemarkedReach(b: map<int, Block>, c: map<int, Block>, scope: Scope, seeds: set<int>,
          d: set<int>)
    requires Remarked(b, c) && IsReached(b, scope, seeds, d)
    ensures IsReached(c, scope, seeds, d)
  {
    forall x ensures x in d <==> Reach(c, scope, seeds, x) {
      SameReach(b, c, scope, seeds, x);
    }
  }

  /** The self-check has nothing to count. */
  lemma {:induction false} NothingOverlooked(m: Mem, rs: seq<seq<int>>, roots: seq<int>, rid: int, own: seq<int>,
          d: set<int>, visited: set<int>)
    requires RegionInv(m, rs, roots) && 0 <= rid < |rs| && Covers(m, rid, own, roots)
    requires IsReached(m.blocks, Within(rid), Seeds(rs, rid, own), d)
    requires IsReached(m.blocks, Everywhere, RootSet(roots), visited)
    ensures Overlooked(m.blocks, visited, rid, d) == {}
  {
    forall x | x in visited && x in m.blocks && m.blocks[x].rid == rid ensures x in d {
      LocalMarkCovers(m, rs, roots, rid, own, d, x);
    }
  }

  // ---------------------------------------------------------------- whole runs

  /** Moments one after the other, and the steps between them. */
  datatype Run = Run(moments: seq<Moment>, steps: seq<Step>)

  ghost predicate SteppedFrom(a: Moment, b: Moment, s: Step) {
    Inv(a.m) && RegionsKnown(a.m) ==> Stepped(a, b, s)
  }

  ghost predicate IsRun(run: Run) {
    && |run.moments| == |run.steps| + 1
    && forall i {:trigger run.steps[i]} | 0 <= i < |run.steps| ::
         SteppedFrom(run.moments[i], run.moments[i + 1], run.steps[i])
  }

  /**
   Over any run from a heap in order, every moment is in order, so no pointer dangles and the in-edge
   sets are complete and hold only blocks in use; and the self-check's counter stays where it was.
   */
  lemma {:induction false} RunStaysInOrder(run: Run, i: nat)
    requires IsRun(run) && InOrder(run.moments[0]) && i < |run.moments|
    ensures InOrder(run.moments[i]) && run.moments[i].bad == run.moments[0].bad
    ensures forall k, x {:trigger EntryOk(run.moments[i].m, k, x)} |
              0 <= k < |run.moments[i].rs| && x in run.moments[i].rs[k] :: EntryOk(run.moments[i].m, k, x)
  {
    if i > 0 {
      RunStaysInOrder(run, i - 1);
      assert SteppedFrom(run.moments[i - 1], run.moments[i], run.steps[i - 1]);
      StepIsSafe(run.moments[i - 1], run.moments[i], run.steps[i - 1]);
    }
  }

  lemma {:induction false} RunIsSafe(run: Run, i: nat)
    requires IsRun(run) && InOrder(run.moments[0]) && i < |run.steps|
    ensures Safe(run.moments[i], run.moments[i + 1])
  {
    RunStaysInOrder(run, i);
    assert SteppedFrom(run.moments[i], run.moments[i + 1], run.steps[i]);
    StepIsSafe(run.moments[i], run.moments[i + 1], run.steps[i]);
  }

  lemma {:induction false} SameObjectTrans(a: Moment, b: Moment, c: Moment, x: int)
    requires SameObject(a, b, x) && SameObject(b, c, x)
    ensures SameObject(a, c, x)
  {
  }

  lemma {:induction false} SafeKeepsObject(a: Moment, b: Moment, x: int)
    requires Safe(a, b) && Reachable(a, x)
    ensures SameObject(a, b, x)
  {
  }

  lemma {:induction false} ReachableIsObject(run: Run, i: nat, x: int)
    requires IsRun(run) && InOrder(run.moments[0]) && i < |run.moments| && Reachable(run.moments[i], x)
    ensures SameObject(run.moments[i], run.moments[i], x)
  {
    RunStaysInOrder(run, i);
    ReachableIsUsed(run.moments[i].m, run.moments[i].rs, run.moments[i].roots, x);
  }

  /**
   Over any run of allocations, pointer writes, root changes and sweeps of single regions, a block that
   stays reachable is never released: it is the same object all along.
   */
  lemma {:induction false} RunKeepsReachable(run: Run, i: nat, j: nat, x: int)
    requires IsRun(run) && InOrder(run.moments[0]) && i <= j < |run.moments|
    requires forall k {:trigger Reachable(run.moments[k], x)} | i <= k <= j :: Reachable(run.moments[k], x)
    ensures SameObject(run.moments[i], run.moments[j], x)
    decreases j
  {
    if i == j {
      assert Reachable(run.moments[i], x);
      ReachableIsObject(run, i, x);
    } else {
      RunKeepsReachable(run, i, j - 1, x);
      assert Reachable(run.moments[j - 1], x);
      RunIsSafe(run, j - 1);
      SafeKeepsObject(run.moments[j - 1], run.moments[j], x);
      SameObjectTrans(run.moments[i], run.moments[j - 1], run.moments[j], x);
    }
  }

  // ---------------------------------------------------------------- what is in the in-edge sets

  /** A pointer to block `x` of region `k` is written into a block of another region. */
  ghost predicate StoredAcross(a: Moment, s: Step, k: int, x: int) {
    && s.Writes? && s.v == x >= 0 && x in a.m.blocks && s.x in a.m.blocks
    && a.m.blocks[x].rid == k && a.m.blocks[s.x].rid != k
  }

  lemma {:induction false} StepRegisters(a: Moment, b: Moment, s: Step, k: int, x: int)
    requires InOrder(a) && Stepped(a, b, s) && 0 <= k < |a.rs|
    ensures |b.rs| == |a.rs| && (x in b.rs[k] <==> x in a.rs[k] || StoredAcross(a, s, k, x))
  {
    if s.Writes? && s.v >= 0 {
      var v := a.m.blocks[s.v];
      assert BlockOk(a.m, a.rs, s.v);
      if 0 <= v.rid < |a.rs| {
        assert x in a.rs[v.rid] + [s.v] <==> x in a.rs[v.rid] || x == s.v;
      }
    }
  }

  /**
   Over any run, the in-edge set of a region gains exactly the blocks to which a pointer was written
   across regions, and loses none.
   */
  lemma {:induction false} InEdgesAreStores(run: Run, j: nat, k: int, x: int)
    requires IsRun(run) && InOrder(run.moments[0]) && j < |run.moments| && 0 <= k < |run.moments[0].rs|
    ensures |run.moments[j].rs| == |run.moments[0].rs|
    ensures x in run.moments[j].rs[k] <==>
              || x in run.moments[0].rs[k]
              || exists i: nat :: i < j && StoredAcross(run.moments[i], run.steps[i], k, x)
  {
    if j > 0 {
      InEdgesAreStores(run, j - 1, k, x);
      RunStaysInOrder(run, j - 1);
      assert SteppedFrom(run.moments[j - 1], run.moments[j], run.steps[j - 1]);
      StepRegisters(run.moments[j - 1], run.moments[j], run.steps[j - 1], k, x);
    }
  }

  // ---------------------------------------------------------------- the memory behind a block

  /**
   In one step no block that there was claims more memory than before, in use or free; and a block that
   was not there has been handed out by the system in the size it claims.
   */
  lemma {:induction false} StepKeepsRoom(a: Moment, b: Moment, s: Step, x: int)
    requires InOrder(a) && Stepped(a, b, s) && x in b.m.blocks
    ensures x in a.m.blocks ==> b.m.blocks[x].cap <= a.m.blocks[x].cap
    ensures x !in a.m.blocks ==> s.Allocates? && x == s.addr && b.m.blocks[x].cap == s.n
  {
    match s
    case Allocates(rid, n, pointers, addr, reuse) => AllocatedRoom(a.m, rid, n, pointers, addr, reuse, x);
    case Sweeps(rid, own, d, check, visited, marked, reuse) =>
      RemarkedLinks(a.m, marked);
      SweptBlock(a.m.(blocks := marked), rid, 0, d, reuse, x);
    case _ =>
  }

  lemma {:induction false} AllocatedRoom(m: Mem, rid: int, n: int, pointers: nat, addr: int, reuse: bool, x: int)
    requires CanTake(m, rid, addr)
    ensures var w := Allocated(m, rid, rid, n, pointers, addr, reuse);
            x in w.blocks ==>
              && (x in m.blocks ==> w.blocks[x].cap <= m.blocks[x].cap)
              && (x !in m.blocks ==> x == addr && w.blocks[x].cap == n)
  {
    TakenInOrder(m, rid, n, addr, reuse);
    var u, y := Taken(m, rid, n, addr, reuse), Spot(m, rid, n, addr, reuse);
    SetUpInOrder(u, y, rid, n, pointers);
    PushedInOrder(WithBlock(u, y, NewBlock(u.blocks[y], rid, n, pointers)), rid, y);
  }

  lemma {:induction false} RunKeepsRoom(run: Run, k: nat, x: int)
    requires IsRun(run) && InOrder(run.moments[0]) && k < |run.steps| && x in run.moments[k + 1].m.blocks
    ensures var a, b, s := run.moments[k], run.moments[k + 1], run.steps[k];
            && (x in a.m.blocks ==> b.m.blocks[x].cap <= a.m.blocks[x].cap)
            && (x !in a.m.blocks ==> s.Allocates? && x == s.addr && b.m.blocks[x].cap == s.n)
  {
    RunStaysInOrder(run, k);
    assert SteppedFrom(run.moments[k], run.moments[k + 1], run.steps[k]);
    StepKeepsRoom(run.moments[k], run.moments[k + 1], run.steps[k], x);
  }

  /** The block is there at all moments from `i` to `j`. */
  ghost predicate There(run: Run, i: nat, j: nat, x: int)
    requires j < |run.moments|
  {
    forall k | i <= k <= j :: x in run.moments[k].m.blocks
  }

  /**
   Over any run, a block never claims more memory than the system handed out for it, however often it is
   freed and used again in between.
   */
  lemma {:induction false} BlocksHaveRoom(run: Run, i: nat, j: nat, x: int)
    requires IsRun(run) && InOrder(run.moments[0]) && i < j < |run.moments|
    requires x !in run.moments[i].m.blocks && There(run, i + 1, j, x)
    ensures run.steps[i].Allocates? && x == run.steps[i].addr && run.moments[j].m.blocks[x].cap <= run.steps[i].n
    decreases j
  {
    assert x in run.moments[j].m.blocks;
    RunKeepsRoom(run, j - 1, x);
    if j > i + 1 {
      assert x in run.moments[j - 1].m.blocks;
      BlocksHaveRoom(run, i, j - 1, x);
    }
  }
}
