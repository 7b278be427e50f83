/**
 What keeps a collection of one region safe: every pointer from another region is in the region's
 in-edge set, so sweeping from the region's own roots and that set frees nothing the program can reach.
 */
module RegionState {
  import opened Chains
  import opened HeapState
  import opened Marking

  /** `g_rs_epoch` keeps its initial value; it is not 0, which is what a new block carries. */
  const RS_EPOCH := 1

  ghost predicate EntryOk(m: Mem, k: int, x: int) {
    IsUsed(m, x) && x in m.blocks && m.blocks[x].rid == k && m.blocks[x].rsmark == RS_EPOCH
  }

  /** A block lives in its region's arena, says whether it is in the in-edge set, and holds no stray pointer. */
  ghost predicate BlockOk(m: Mem, rs: seq<seq<int>>, x: int)
    requires x in m.home
  {
    m.home[x].Used? ==>
      && x in m.blocks && m.home[x] == Used(m.blocks[x].rid) && 0 <= m.blocks[x].rid < |rs|
      && (m.blocks[x].rsmark == RS_EPOCH ==> x in rs[m.blocks[x].rid])
      && forall y {:trigger PointerOk(m, rs, m.blocks[x].rid, y)} | y in m.blocks[x].ptrs && y >= 0 ::
        PointerOk(m, rs, m.blocks[x].rid, y)
  }

  /** A pointer held in region `from`: to a block in use, which is in its region's set if that is another one. */
  ghost predicate PointerOk(m: Mem, rs: seq<seq<int>>, from: int, y: int) {
    && IsUsed(m, y) && y in m.blocks && 0 <= m.blocks[y].rid < |rs|
    && (m.blocks[y].rid != from ==> y in rs[m.blocks[y].rid])
  }

  ghost predicate RegionInv(m: Mem, rs: seq<seq<int>>, roots: seq<int>) {
    && |rs| == |m.chains|
    && (forall x {:trigger BlockOk(m, rs, x)} | x in m.home :: BlockOk(m, rs, x))
    && (forall k, x {:trigger EntryOk(m, k, x)} | 0 <= k < |rs| && x in rs[k] :: EntryOk(m, k, x))
    && (forall k | 0 <= k < |rs| :: NoDup(rs[k]))
    && (forall r | r in roots && r >= 0 :: IsUsed(m, r) && r in m.blocks)
  }

  function RootSet(roots: seq<int>): set<int> {
    set r | r in roots && r >= 0
  }

  /** Every block the program can reach is in use. */
  lemma {:induction false} ReachableIsUsed(m: Mem, rs: seq<seq<int>>, roots: seq<int>, x: int)
    requires RegionInv(m, rs, roots) && Reach(m.blocks, Everywhere, RootSet(roots), x)
    ensures IsUsed(m, x) && x in m.blocks
  {
    var p :| Path(m.blocks, Everywhere, RootSet(roots), p) && p[|p| - 1] == x;
    PathIsUsed(m, rs, roots, p, |p| - 1);
  }

  lemma {:induction false} PathIsUsed(m: Mem, rs: seq<seq<int>>, roots: seq<int>, p: seq<int>, i: nat)
    requires RegionInv(m, rs, roots) && Path(m.blocks, Everywhere, RootSet(roots), p) && i < |p|
    ensures IsUsed(m, p[i]) && p[i] in m.blocks
  {
    if i > 0 {
      PathIsUsed(m, rs, roots, p, i - 1);
      assert Edge(m.blocks, Everywhere, p[i - 1], p[i]) && BlockOk(m, rs, p[i - 1]);
      assert PointerOk(m, rs, m.blocks[p[i - 1]].rid, p[i]);
    }
  }

  // ---------------------------------------------------------------- one region's mark covers the global one

  /** What a sweep of region `rid` marks from: its own roots and its in-edge set. */
  function Seeds(rs: seq<seq<int>>, rid: int, own: seq<int>): set<int>
    requires 0 <= rid < |rs|
  {
    RootSet(own) + Members(rs[rid])
  }

  /** `own` has every root into the region. */
  ghost predicate Covers(m: Mem, rid: int, own: seq<int>, roots: seq<int>) {
    && (forall r | r in own && r >= 0 :: IsUsed(m, r) && r in m.blocks)
    && (forall r | r in roots && r >= 0 && r in m.blocks && m.blocks[r].rid == rid :: r in own)
  }

  /** A block of the region that the program can reach is found by the region's own mark. */
  lemma {:induction false} LocalMarkCovers(m: Mem, rs: seq<seq<int>>, roots: seq<int>, rid: int, own: seq<int>,
          d: set<int>, x: int)
    requires RegionInv(m, rs, roots) && 0 <= rid < |rs| && Covers(m, rid, own, roots)
    requires IsReached(m.blocks, Within(rid), Seeds(rs, rid, own), d)
    requires Reach(m.blocks, Everywhere, RootSet(roots), x) && x in m.blocks && m.blocks[x].rid == rid
    ensures x in d
  {
    var p :| Path(m.blocks, Everywhere, RootSet(roots), p) && p[|p| - 1] == x;
    LocalMarkCoversPath(m, rs, roots, rid, own, d, p, |p| - 1);
  }

  lemma {:induction false} LocalMarkCoversPath(m: Mem, rs: seq<seq<int>>, roots: seq<int>, rid: int, own: seq<int>,
          d: set<int>, p: seq<int>, i: nat)
    requires RegionInv(m, rs, roots) && 0 <= rid < |rs| && Covers(m, rid, own, roots)
    requires IsReached(m.blocks, Within(rid), Seeds(rs, rid, own), d)
    requires Path(m.blocks, Everywhere, RootSet(roots), p) && i < |p| && p[i] in m.blocks && m.blocks[p[i]].rid == rid
    ensures p[i] in d
  {
    if i == 0 {
      SeedReached(m.blocks, Within(rid), Seeds(rs, rid, own), p[0]);
    } else {
      PathIsUsed(m, rs, roots, p, i - 1);
      var x, y := p[i - 1], p[i];
      assert Edge(m.blocks, Everywhere, x, y) && BlockOk(m, rs, x);
      assert PointerOk(m, rs, m.blocks[x].rid, y);
      if m.blocks[x].rid == rid {
        LocalMarkCoversPath(m, rs, roots, rid, own, d, p, i - 1);
        StepReached(m.blocks, Within(rid), Seeds(rs, rid, own), x, y);
      } else {
        SeedReached(m.blocks, Within(rid), Seeds(rs, rid, own), y);
      }
    }
  }

  /** What the region's mark finds is in use, so the mark stack never holds a stray pointer. */
  lemma {:induction false} LocalMarkIsUsed(m: Mem, rs: seq<seq<int>>, roots: seq<int>, rid: int, own: seq<int>, x: int)
    requires RegionInv(m, rs, roots) && 0 <= rid < |rs| && Covers(m, rid, own, roots)
    requires Reach(m.blocks, Within(rid), Seeds(rs, rid, own), x)
    ensures x in m.blocks && IsUsed(m, x)
  {
    var p :| Path(m.blocks, Within(rid), Seeds(rs, rid, own), p) && p[|p| - 1] == x;
    LocalPathIsUsed(m, rs, roots, rid, own, p, |p| - 1);
  }

  lemma {:induction false} LocalPathIsUsed(m: Mem, rs: seq<seq<int>>, roots: seq<int>, rid: int, own: seq<int>,
          p: seq<int>, i: nat)
    requires RegionInv(m, rs, roots) && 0 <= rid < |rs| && Covers(m, rid, own, roots)
    requires Path(m.blocks, Within(rid), Seeds(rs, rid, own), p) && i < |p|
    ensures p[i] in m.blocks && IsUsed(m, p[i])
  {
    if i == 0 {
      assert p[0] in rs[rid] ==> EntryOk(m, rid, p[0]);
    } else {
      LocalPathIsUsed(m, rs, roots, rid, own, p, i - 1);
      assert Edge(m.blocks, Within(rid), p[i - 1], p[i]) && BlockOk(m, rs, p[i - 1]);
      assert PointerOk(m, rs, m.blocks[p[i - 1]].rid, p[i]);
    }
  }

  // ---------------------------------------------------------------- taking blocks out of a chain

  /** The same block but for its links. */
  predicate SameBlock(b: Block, c: Block) {
    c == b.(prev := c.prev, self := c.self)
  }

  /** All blocks are the same but for their links. */
  ghost predicate SameBlocks(b: map<int, Block>, c: map<int, Block>) {
    b.Keys == c.Keys && forall x | x in b :: SameBlock(b[x], c[x])
  }

  /** The blocks `d` of chain `k` are gone, the rest of the chain is in order, other blocks are as they were. */
  ghost predicate Cleared(m: Mem, w: Mem, k: int, d: set<int>) {
    && 0 <= k < |m.chains| && w.chains == m.chains[k := Without(m.chains[k], d)]
    && w.home.Keys <= m.home.Keys && w.blocks.Keys <= m.blocks.Keys
    && (forall x {:trigger KeptBlock(m, w, x)} | x in m.home && x !in d :: KeptBlock(m, w, x))
    && (forall x | x in d :: x in m.chains[k] && !IsUsed(w, x))
    && (forall x {:trigger Gone(m, w, x)} | x in d :: Gone(m, w, x))
  }

  /** Back to the system, or on its region's free list; not lost. */
  ghost predicate Gone(m: Mem, w: Mem, x: int) {
    x !in w.home || (x in m.blocks && w.home[x] == Free(m.blocks[x].rid))
  }

  /** With reuse the blocks `d` are all kept on free lists, without it all are back at the system. */
  ghost predicate SentBack(w: Mem, d: set<int>, reuse: bool) {
    forall x {:trigger x in w.home} | x in d :: x in w.home <==> reuse
  }

  ghost predicate KeptBlock(m: Mem, w: Mem, x: int)
    requires x in m.home
  {
    x in w.home && w.home[x] == m.home[x] && x in m.blocks && x in w.blocks && SameBlock(m.blocks[x], w.blocks[x])
  }

  /** One more block is unlinked and released. */
  lemma {:induction false} ClearedMore(m: Mem, u: Mem, k: int, d: set<int>, i: nat, reuse: bool)
    requires Inv(m) && Inv(u) && Cleared(m, u, k, d) && SentBack(u, d, reuse) && i < |u.chains[k]|
    requires var x := u.chains[k][i]; x in u.blocks && 0 <= u.blocks[x].rid < |u.freel|
    ensures var x, v := u.chains[k][i], Unlinked(u, k, i);
            && x in v.blocks && 0 <= v.blocks[x].rid < |v.freel|
            && Inv(Released(v, x, reuse)) && Cleared(m, Released(v, x, reuse), k, d + {x})
            && SentBack(Released(v, x, reuse), d + {x}, reuse)
  {
    var x, v := u.chains[k][i], Unlinked(u, k, i);
    UnlinkedKeepsInv(u, k, i);
    assert ChainOk(u, k) && LinkOk(u, k, i);
    UnlinkedSame(u, k, i, x);
    ReleasedKeepsInv(v, x, reuse);
    ClearedChain(m.chains[k], d, i);
    var w := Released(v, x, reuse);
    forall y | y in m.home && y !in d + {x} ensures KeptBlock(m, w, y) {
      assert KeptBlock(m, u, y);
      UnlinkedSame(u, k, i, y);
    }
    forall y | y in d + {x} ensures Gone(m, w, y) {
      if y in d {
        assert Gone(m, u, y);
      } else {
        InOwnChain(m, k, x);
        assert KeptBlock(m, u, x);
      }
    }
    assert w.chains == m.chains[k := Without(m.chains[k], d + {x})];
  }

  lemma {:induction false} ClearedChain(c: seq<int>, d: set<int>, i: nat)
    requires NoDup(Without(c, d)) && i < |Without(c, d)|
    ensures var rest := Without(c, d);
            rest[..i] + rest[i + 1..] == Without(c, d + {rest[i]}) && rest[i] in c && rest[i] !in d
  {
    var rest := Without(c, d);
    WithoutTwice(c, d, {rest[i]});
    WithoutOne(rest, i);
    WithoutMember(c, d, rest[i]);
  }

  lemma {:induction false} UnlinkedSame(m: Mem, k: int, i: int, y: int)
    requires Inv(m) && 0 <= k < |m.chains| && 0 <= i < |m.chains[k]| && y in m.blocks
    ensures y in Unlinked(m, k, i).blocks && SameBlock(m.blocks[y], Unlinked(m, k, i).blocks[y])
  {
    UnlinkedBlocks(m, k, i);
  }

  // ---------------------------------------------------------------- sweeping is safe

  /** The blocks of region `rid` that the mark `d` did not find. */
  ghost function Unmarked(m: Mem, rid: int, d: set<int>): set<int>
    requires 0 <= rid < |m.chains|
  {
    set x | x in m.chains[rid] && x !in d
  }

  /** Nothing the program can reach is freed. */
  lemma {:induction false} SweepKeepsReachable(m: Mem, w: Mem, rs: seq<seq<int>>, roots: seq<int>, rid: int,
          own: seq<int>, d: set<int>, x: int)
    requires Inv(m) && RegionInv(m, rs, roots) && 0 <= rid < |rs| && Covers(m, rid, own, roots)
    requires IsReached(m.blocks, Within(rid), Seeds(rs, rid, own), d)
    requires Cleared(m, w, rid, Unmarked(m, rid, d))
    requires Reach(m.blocks, Everywhere, RootSet(roots), x)
    ensures x in m.home && m.home[x].Used? && KeptBlock(m, w, x)
  {
    ReachableIsUsed(m, rs, roots, x);
    assert HomeOk(m, x) && BlockOk(m, rs, x);
    if x in m.chains[rid] {
      InOwnChain(m, rid, x);
      LocalMarkCovers(m, rs, roots, rid, own, d, x);
    }
  }

  lemma {:induction false} InOwnChain(m: Mem, k: int, x: int)
    requires Inv(m) && 0 <= k < |m.chains| && x in m.chains[k]
    ensures x in m.home && m.home[x] == Used(k)
  {
    var i :| 0 <= i < |m.chains[k]| && m.chains[k][i] == x;
    assert ChainOk(m, k) && LinkOk(m, k, i);
  }

  /** A pointer that survives still points to a block in use. */
  lemma {:induction false} SweptPointerOk(m: Mem, w: Mem, rs: seq<seq<int>>, roots: seq<int>, rid: int,
          own: seq<int>, d: set<int>, x: int, y: int)
    requires Inv(m) && RegionInv(m, rs, roots) && 0 <= rid < |rs| && Covers(m, rid, own, roots)
    requires IsReached(m.blocks, Within(rid), Seeds(rs, rid, own), d)
    requires Cleared(m, w, rid, Unmarked(m, rid, d))
    requires x in m.home && m.home[x].Used? && x !in Unmarked(m, rid, d) && x in m.blocks && y in m.blocks[x].ptrs
    requires y >= 0
    ensures PointerOk(w, rs, m.blocks[x].rid, y)
  {
    assert BlockOk(m, rs, x) && PointerOk(m, rs, m.blocks[x].rid, y);
    if y in m.chains[rid] {
      InOwnChain(m, rid, y);
      assert BlockOk(m, rs, y);
      if m.blocks[x].rid == rid {
        assert HomeOk(m, x);
        StepReached(m.blocks, Within(rid), Seeds(rs, rid, own), x, y);
      } else {
        SeedReached(m.blocks, Within(rid), Seeds(rs, rid, own), y);
      }
      assert y in d;
    }
    assert y !in Unmarked(m, rid, d);
    assert KeptBlock(m, w, y);
  }

  /** Sweeping one region keeps everything in order. */
  lemma {:induction false} SweepKeepsRegions(m: Mem, w: Mem, rs: seq<seq<int>>, roots: seq<int>, rid: int,
          own: seq<int>, d: set<int>)
    requires Inv(m) && RegionInv(m, rs, roots) && 0 <= rid < |rs| && Covers(m, rid, own, roots)
    requires IsReached(m.blocks, Within(rid), Seeds(rs, rid, own), d)
    requires Cleared(m, w, rid, Unmarked(m, rid, d))
    ensures RegionInv(w, rs, roots)
  {
    forall x | x in w.home ensures BlockOk(w, rs, x) {
      assert BlockOk(m, rs, x);
      if w.home[x].Used? {
        assert x !in Unmarked(m, rid, d) && KeptBlock(m, w, x);
        forall y | y in w.blocks[x].ptrs && y >= 0 ensures PointerOk(w, rs, w.blocks[x].rid, y) {
          SweptPointerOk(m, w, rs, roots, rid, own, d, x, y);
        }
      }
    }
    forall k, x | 0 <= k < |rs| && x in rs[k] ensures EntryOk(w, k, x) {
      assert EntryOk(m, k, x);
      if x in m.chains[rid] {
        InOwnChain(m, rid, x);
        assert BlockOk(m, rs, x);
        SeedReached(m.blocks, Within(rid), Seeds(rs, rid, own), x);
      }
      assert KeptBlock(m, w, x);
    }
    forall r | r in roots && r >= 0 ensures IsUsed(w, r) && r in w.blocks {
      SeedReached(m.blocks, Everywhere, RootSet(roots), r);
      SweepKeepsReachable(m, w, rs, roots, rid, own, d, r);
    }
  }

  // ---------------------------------------------------------------- changes that keep the regions in order

  /** The same blocks but for their marks. */
  ghost predicate Remarked(b: map<int, Block>, c: map<int, Block>) {
    b.Keys == c.Keys && forall x | x in b :: c[x] == b[x].(mark := c[x].mark, vmark := c[x].vmark)
  }

  lemma {:induction false} RemarkedKeepsRegions(m: Mem, w: Mem, rs: seq<seq<int>>, roots: seq<int>)
    requires RegionInv(m, rs, roots) && w == m.(blocks := w.blocks) && Remarked(m.blocks, w.blocks)
    ensures RegionInv(w, rs, roots)
  {
    forall x | x in w.home ensures BlockOk(w, rs, x) {
      assert BlockOk(m, rs, x);
      if w.home[x].Used? {
        forall y | y in w.blocks[x].ptrs && y >= 0 ensures PointerOk(w, rs, w.blocks[x].rid, y) {
          assert PointerOk(m, rs, m.blocks[x].rid, y);
        }
      }
    }
    forall k, x | 0 <= k < |rs| && x in rs[k] ensures EntryOk(w, k, x) {
      assert EntryOk(m, k, x);
    }
  }

  /** Block `v` joins its region's in-edge set. */
  lemma {:induction false} RegisterKeepsRegions(m: Mem, w: Mem, rs: seq<seq<int>>, rs': seq<seq<int>>,
          roots: seq<int>, v: int)
    requires RegionInv(m, rs, roots) && IsUsed(m, v) && v in m.blocks && 0 <= m.blocks[v].rid < |rs|
    requires m.blocks[v].rsmark != RS_EPOCH && w == m.(blocks := m.blocks[v := m.blocks[v].(rsmark := RS_EPOCH)])
    requires rs' == rs[m.blocks[v].rid := rs[m.blocks[v].rid] + [v]]
    ensures RegionInv(w, rs', roots)
  {
    var rid := m.blocks[v].rid;
    assert v !in rs[rid] by {
      assert v in rs[rid] ==> EntryOk(m, rid, v);
    }
    forall k | 0 <= k < |rs| ensures forall y :: y in rs'[k] <==> y in rs[k] || (k == rid && y == v) {}
    forall x | x in w.home ensures BlockOk(w, rs', x) {
      assert BlockOk(m, rs, x);
      if w.home[x].Used? {
        forall y | y in w.blocks[x].ptrs && y >= 0 ensures PointerOk(w, rs', w.blocks[x].rid, y) {
          assert PointerOk(m, rs, m.blocks[x].rid, y);
        }
      }
    }
    forall k, x | 0 <= k < |rs'| && x in rs'[k] ensures EntryOk(w, k, x) {
      assert x in rs[k] ==> EntryOk(m, k, x);
    }
  }

  /** A pointer in order is written into block `x`. */
  lemma {:induction false} PointKeepsRegions(m: Mem, w: Mem, rs: seq<seq<int>>, roots: seq<int>, x: int, i: int, v: int)
    requires RegionInv(m, rs, roots) && IsUsed(m, x) && x in m.blocks && 0 <= i < |m.blocks[x].ptrs|
    requires v >= 0 ==> PointerOk(m, rs, m.blocks[x].rid, v)
    requires w == m.(blocks := m.blocks[x := m.blocks[x].(ptrs := m.blocks[x].ptrs[i := v])])
    ensures RegionInv(w, rs, roots)
  {
    forall y | y in w.home ensures BlockOk(w, rs, y) {
      assert BlockOk(m, rs, y);
      if w.home[y].Used? {
        forall z | z in w.blocks[y].ptrs && z >= 0 ensures PointerOk(w, rs, w.blocks[y].rid, z) {
          assert z in m.blocks[y].ptrs || (y == x && z == v);
          assert PointerOk(m, rs, m.blocks[y].rid, z);
        }
      }
    }
    forall k, y | 0 <= k < |rs| && y in rs[k] ensures EntryOk(w, k, y) {
      assert EntryOk(m, k, y);
    }
  }

  /** A block that was not in use comes into use without pointers in its own region's arena. */
  lemma {:induction false} NewKeepsRegions(m: Mem, w: Mem, rs: seq<seq<int>>, roots: seq<int>, x: int)
    requires RegionInv(m, rs, roots) && !IsUsed(m, x) && |w.chains| == |m.chains|
    requires x in w.home && x in w.blocks && w.home[x] == Used(w.blocks[x].rid) && 0 <= w.blocks[x].rid < |rs|
    requires w.blocks[x].rsmark == 0 && forall y | y in w.blocks[x].ptrs :: y < 0
    requires forall y | y in w.home && y != x :: y in m.home && w.home[y] == m.home[y]
    requires forall y {:trigger KeptBlock(m, w, y)} | y in m.home && y != x :: y in m.blocks ==> KeptBlock(m, w, y)
    ensures RegionInv(w, rs, roots)
  {
    forall y | y in w.home ensures BlockOk(w, rs, y) {
      if y != x {
        assert BlockOk(m, rs, y);
        if w.home[y].Used? {
          assert KeptBlock(m, w, y);
          forall z | z in w.blocks[y].ptrs && z >= 0 ensures PointerOk(w, rs, w.blocks[y].rid, z) {
            assert PointerOk(m, rs, m.blocks[y].rid, z);
            assert KeptBlock(m, w, z);
          }
        }
      }
    }
    forall k, y | 0 <= k < |rs| && y in rs[k] ensures EntryOk(w, k, y) {
      assert EntryOk(m, k, y) && KeptBlock(m, w, y);
    }
    forall r | r in roots && r >= 0 ensures IsUsed(w, r) && r in w.blocks {
      assert KeptBlock(m, w, r);
    }
  }

  /**
   A block that is handed to another arena keeps its region number, so things stay in order only if it was that
   arena's.
   */
  lemma {:induction false} MovedKeepsRegionsIff(m: Mem, w: Mem, rs: seq<seq<int>>, roots: seq<int>, x: int, to: int)
    requires RegionInv(m, rs, roots) && IsUsed(m, x) && w.home == m.home[x := Used(to)] && |w.chains| == |m.chains|
    requires SameBlocks(m.blocks, w.blocks)
    ensures x in m.blocks && (RegionInv(w, rs, roots) <==> to == m.blocks[x].rid)
  {
    assert BlockOk(m, rs, x);
    if to == m.blocks[x].rid {
      forall y | y in w.home ensures BlockOk(w, rs, y) {
        assert BlockOk(m, rs, y);
        if w.home[y].Used? {
          forall z | z in w.blocks[y].ptrs && z >= 0 ensures PointerOk(w, rs, w.blocks[y].rid, z) {
            assert PointerOk(m, rs, m.blocks[y].rid, z);
          }
        }
      }
      forall k, y | 0 <= k < |rs| && y in rs[k] ensures EntryOk(w, k, y) {
        assert EntryOk(m, k, y);
      }
    } else {
      assert !BlockOk(w, rs, x);
    }
  }
}
