/**
 The block heap of the reclamation prototype: each arena is a chain of blocks linked through
 `prev`, each block points back at the place that points at it, and freed blocks wait in one free
 list per region.
 */
module HeapState {
  import opened Chains

  /** Where a pointer to a block is kept: an arena's `top`, or a block's `prev`. */
  datatype Place = TopOf(k: int) | PrevOf(x: int)

  datatype Block = Block(prev: int, self: Place, cap: int, mark: int, rid: int, rsmark: int, vmark: int, ptrs: seq<int>)

  /** What a block is part of; for a moment it can be loose. */
  datatype Home = Used(k: int) | Free(k: int) | Loose

  /** The blocks by address, the arenas' tops and the free lists; and the chains these describe. */
  datatype Mem = Mem(blocks: map<int, Block>, top: seq<int>, freel: seq<int>,
                     chains: seq<seq<int>>, frees: seq<seq<int>>, home: map<int, Home>)

  // ---------------------------------------------------------------- the invariant

  ghost predicate LinkOk(m: Mem, k: int, i: int)
    requires 0 <= k < |m.chains| && 0 <= i < |m.chains[k]|
  {
    var c, x := m.chains[k], m.chains[k][i];
    && 0 <= x && x in m.blocks && x in m.home && m.home[x] == Used(k)
    && m.blocks[x].prev == At(c, i + 1)
    && m.blocks[x].self == if i == 0 then TopOf(k) else PrevOf(c[i - 1])
  }

  ghost predicate ChainOk(m: Mem, k: int)
    requires 0 <= k < |m.chains| == |m.top|
  {
    && m.top[k] == At(m.chains[k], 0) && NoDup(m.chains[k])
    && forall i {:trigger LinkOk(m, k, i)} | 0 <= i < |m.chains[k]| :: LinkOk(m, k, i)
  }

  ghost predicate FreeLinkOk(m: Mem, k: int, i: int)
    requires 0 <= k < |m.frees| && 0 <= i < |m.frees[k]|
  {
    var c, x := m.frees[k], m.frees[k][i];
    0 <= x && x in m.blocks && x in m.home && m.home[x] == Free(k) && m.blocks[x].prev == At(c, i + 1)
  }

  ghost predicate FreeOk(m: Mem, k: int)
    requires 0 <= k < |m.frees| == |m.freel|
  {
    && m.freel[k] == At(m.frees[k], 0) && NoDup(m.frees[k])
    && forall i {:trigger FreeLinkOk(m, k, i)} | 0 <= i < |m.frees[k]| :: FreeLinkOk(m, k, i)
  }

  ghost predicate HomeOk(m: Mem, x: int)
    requires x in m.home && |m.chains| == |m.frees|
  {
    match m.home[x]
    case Used(k) => 0 <= k < |m.chains| && x in m.chains[k]
    case Free(k) => 0 <= k < |m.frees| && x in m.frees[k]
    case Loose => true
  }

  ghost predicate Inv(m: Mem) {
    && |m.top| == |m.freel| == |m.chains| == |m.frees| && m.home.Keys == m.blocks.Keys
    && (forall k {:trigger ChainOk(m, k)} | 0 <= k < |m.chains| :: ChainOk(m, k))
    && (forall k {:trigger FreeOk(m, k)} | 0 <= k < |m.frees| :: FreeOk(m, k))
    && (forall x {:trigger HomeOk(m, x)} | x in m.home :: HomeOk(m, x))
  }

  predicate IsUsed(m: Mem, x: int) {
    x in m.home && m.home[x].Used?
  }

  // ---------------------------------------------------------------- places

  predicate PlaceOk(m: Mem, p: Place) {
    match p case TopOf(k) => 0 <= k < |m.top| case PrevOf(x) => x in m.blocks
  }

  function Load(m: Mem, p: Place): int
    requires PlaceOk(m, p)
  {
    match p case TopOf(k) => m.top[k] case PrevOf(x) => m.blocks[x].prev
  }

  /** `*p = v`. */
  function Assign(m: Mem, p: Place, v: int): Mem
    requires PlaceOk(m, p)
  {
    match p
    case TopOf(k) => m.(top := m.top[k := v])
    case PrevOf(x) => m.(blocks := m.blocks[x := m.blocks[x].(prev := v)])
  }

  function SetSelf(m: Mem, x: int, p: Place): Mem
    requires x >= 0 ==> x in m.blocks
  {
    if x >= 0 then m.(blocks := m.blocks[x := m.blocks[x].(self := p)]) else m
  }

  /** Block `x`, the `i`-th of chain `k`, is taken out: what pointed at it points past it. */
  ghost function Unlinked(m: Mem, k: int, i: int): (w: Mem)
    requires Inv(m) && 0 <= k < |m.chains| && 0 <= i < |m.chains[k]|
    ensures |w.top| == |m.top| && w.freel == m.freel && w.frees == m.frees && w.blocks.Keys == m.blocks.Keys
    ensures w.chains == m.chains[k := m.chains[k][..i] + m.chains[k][i + 1..]]
    ensures w.home == m.home[m.chains[k][i] := Loose]
  {
    var c := m.chains[k];
    var x := c[i];
    assert ChainOk(m, k) && LinkOk(m, k, i);
    assert i > 0 ==> LinkOk(m, k, i - 1);
    assert i + 1 < |c| ==> LinkOk(m, k, i + 1);
    var b := m.blocks[x];
    SetSelf(Assign(m, b.self, b.prev), b.prev, b.self).(chains := m.chains[k := c[..i] + c[i + 1..]],
      home := m.home[x := Loose])
  }

  /** What taking `c[i]` out of chain `k` does to the blocks. */
  lemma {:induction false} UnlinkedBlocks(m: Mem, k: int, i: int)
    requires Inv(m) && 0 <= k < |m.chains| && 0 <= i < |m.chains[k]|
    ensures var c, w := m.chains[k], Unlinked(m, k, i);
            && ChainOk(m, k) && w.blocks.Keys == m.blocks.Keys
            && (forall y | y in m.blocks && (i == 0 || y != c[i - 1]) && (i + 1 == |c| || y != c[i + 1]) ::
                  w.blocks[y] == m.blocks[y])
            && (i > 0 ==> c[i - 1] in m.blocks && w.blocks[c[i - 1]] == m.blocks[c[i - 1]].(prev := At(c, i + 1)))
            && (i + 1 < |c| ==>
                  c[i + 1] in m.blocks
                  && w.blocks[c[i + 1]] == m.blocks[c[i + 1]].(self := if i == 0 then TopOf(k) else PrevOf(c[i - 1])))
            && w.top == (if i == 0 then m.top[k := At(c, 1)] else m.top)
  {
    var c := m.chains[k];
    assert ChainOk(m, k) && LinkOk(m, k, i);
    assert i > 0 ==> LinkOk(m, k, i - 1);
    assert i + 1 < |c| ==> LinkOk(m, k, i + 1);
  }

  lemma {:induction false} UnlinkedChain(m: Mem, k: int, i: int)
    requires Inv(m) && 0 <= k < |m.chains| && 0 <= i < |m.chains[k]|
    ensures ChainOk(Unlinked(m, k, i), k) && m.chains[k][i] !in Unlinked(m, k, i).chains[k]
  {
    UnlinkedBlocks(m, k, i);
    var w := Unlinked(m, k, i);
    forall j | 0 <= j < |w.chains[k]| ensures LinkOk(w, k, j) {
      UnlinkedLink(m, k, i, j);
    }
  }

  lemma {:induction false} UnlinkedLink(m: Mem, k: int, i: int, j: int)
    requires Inv(m) && 0 <= k < |m.chains| && 0 <= i < |m.chains[k]| && 0 <= j < |m.chains[k]| - 1
    ensures LinkOk(Unlinked(m, k, i), k, j)
  {
    UnlinkedBlocks(m, k, i);
    var c, d := m.chains[k], Unlinked(m, k, i).chains[k];
    var o := if j < i then j else j + 1;
    assert d[j] == c[o] && LinkOk(m, k, o);
    assert At(d, j + 1) == At(c, if j + 1 < i then j + 1 else j + 2);
    assert j > 0 ==> d[j - 1] == c[if j - 1 < i then j - 1 else j];
  }

  /** Only the block's neighbours on its chain were touched. */
  lemma {:induction false} UnlinkedElsewhere(m: Mem, k: int, i: int, y: int)
    requires Inv(m) && 0 <= k < |m.chains| && 0 <= i < |m.chains[k]|
    requires y in m.home && m.home[y] != Used(k)
    ensures Unlinked(m, k, i).blocks[y] == m.blocks[y] && Unlinked(m, k, i).home[y] == m.home[y]
  {
    var c := m.chains[k];
    assert ChainOk(m, k) && LinkOk(m, k, i);
    assert i > 0 ==> LinkOk(m, k, i - 1);
    assert i + 1 < |c| ==> LinkOk(m, k, i + 1);
    UnlinkedBlocks(m, k, i);
  }

  lemma {:induction false} UnlinkedHomes(m: Mem, k: int, i: int, y: int)
    requires Inv(m) && 0 <= k < |m.chains| && 0 <= i < |m.chains[k]| && y in m.home
    ensures HomeOk(Unlinked(m, k, i), y)
  {
    var c, w := m.chains[k], Unlinked(m, k, i);
    assert HomeOk(m, y);
    if y != c[i] && m.home[y] == Used(k) {
      var j :| 0 <= j < |c| && c[j] == y;
      assert w.chains[k][if j < i then j else j - 1] == y;
    }
  }

  lemma {:induction false} UnlinkedKeepsInv(m: Mem, k: int, i: int)
    requires Inv(m) && 0 <= k < |m.chains| && 0 <= i < |m.chains[k]|
    ensures Inv(Unlinked(m, k, i))
  {
    var w := Unlinked(m, k, i);
    assert m.chains[k][i] in m.home by { assert ChainOk(m, k) && LinkOk(m, k, i); }
    UnlinkedChain(m, k, i);
    UnlinkedTops(m, k, i);
    forall y | y in m.home && m.home[y] != Used(k) ensures w.blocks[y] == m.blocks[y] && w.home[y] == m.home[y] {
      UnlinkedElsewhere(m, k, i, y);
    }
    forall o | 0 <= o < |w.chains| ensures ChainOk(w, o) {
      if o != k {
        OtherChainSame(m, w, o);
      }
    }
    forall o | 0 <= o < |w.frees| ensures FreeOk(w, o) {
      FreeListSame(m, w, o);
    }
    forall y | y in w.home ensures HomeOk(w, y) {
      UnlinkedHomes(m, k, i, y);
    }
  }

  lemma {:induction false} UnlinkedTops(m: Mem, k: int, i: int)
    requires Inv(m) && 0 <= k < |m.chains| && 0 <= i < |m.chains[k]|
    ensures forall o | 0 <= o < |m.top| && o != k :: Unlinked(m, k, i).top[o] == m.top[o]
  {
    UnlinkedBlocks(m, k, i);
  }

  /** A chain whose blocks did not change is as good as before. */
  lemma {:induction false} OtherChainSame(m: Mem, w: Mem, o: int)
    requires Inv(m) && 0 <= o < |m.chains| == |w.chains| == |w.top|
    requires w.chains[o] == m.chains[o] && w.top[o] == m.top[o]
    requires forall y | y in m.home && m.home[y] == Used(o) ::
               y in w.blocks && y in w.home && w.home[y] == Used(o)
               && w.blocks[y].prev == m.blocks[y].prev && w.blocks[y].self == m.blocks[y].self
    ensures ChainOk(w, o)
  {
    assert ChainOk(m, o);
    forall i | 0 <= i < |w.chains[o]| ensures LinkOk(w, o, i) {
      assert LinkOk(m, o, i);
    }
  }

  lemma {:induction false} FreeListSame(m: Mem, w: Mem, o: int)
    requires Inv(m) && 0 <= o < |m.frees| == |w.frees| == |w.freel|
    requires w.frees[o] == m.frees[o] && w.freel[o] == m.freel[o]
    requires forall y | y in m.home && m.home[y] == Free(o) ::
               y in w.blocks && y in w.home && w.home[y] == Free(o) && w.blocks[y].prev == m.blocks[y].prev
    ensures FreeOk(w, o)
  {
    assert FreeOk(m, o);
    forall i | 0 <= i < |w.frees[o]| ensures FreeLinkOk(w, o, i) {
      assert FreeLinkOk(m, o, i);
    }
  }

  // ---------------------------------------------------------------- putting a block on a chain

  /** A loose block becomes the top of arena `k`. */
  ghost function Pushed(m: Mem, k: int, x: int): Mem
    requires Inv(m) && 0 <= k < |m.chains| && x in m.blocks
  {
    assert ChainOk(m, k);
    assert m.top[k] >= 0 ==> LinkOk(m, k, 0);
    var m1 := m.(blocks := m.blocks[x := m.blocks[x].(prev := m.top[k], self := TopOf(k))]);
    SetSelf(m1, m.top[k], PrevOf(x)).(top := m.top[k := x], chains := m.chains[k := [x] + m.chains[k]],
      home := m.home[x := Used(k)])
  }

  lemma {:induction false} PushedKeepsInv(m: Mem, k: int, x: int)
    requires Inv(m) && 0 <= k < |m.chains| && x in m.home && m.home[x] == Loose && x >= 0
    ensures Inv(Pushed(m, k, x))
  {
    var c, w := m.chains[k], Pushed(m, k, x);
    PushedChain(m, k, x);
    assert ChainOk(m, k) && (c != [] ==> LinkOk(m, k, 0));
    forall o | 0 <= o < |w.chains| ensures ChainOk(w, o) {
      if o != k {
        OtherChainSame(m, w, o);
      }
    }
    forall o | 0 <= o < |w.frees| ensures FreeOk(w, o) {
      FreeListSame(m, w, o);
    }
    forall y | y in w.home ensures HomeOk(w, y) {
      assert HomeOk(m, y);
      assert w.chains[k][1..] == c;
    }
  }

  lemma {:induction false} PushedChain(m: Mem, k: int, x: int)
    requires Inv(m) && 0 <= k < |m.chains| && x in m.home && m.home[x] == Loose && x >= 0
    ensures ChainOk(Pushed(m, k, x), k)
  {
    var c, w := m.chains[k], Pushed(m, k, x);
    assert ChainOk(m, k);
    assert c != [] ==> LinkOk(m, k, 0);
    forall j | 0 <= j < |c| ensures c[j] != x && LinkOk(m, k, j) {
      assert LinkOk(m, k, j);
    }
    var d := w.chains[k];
    assert d[0] == x && forall j | 0 < j < |d| :: d[j] == c[j - 1];
    forall j | 0 <= j < |d| ensures LinkOk(w, k, j) {
      if j > 0 {
        assert LinkOk(m, k, j - 1) && At(d, j + 1) == At(c, j);
      }
    }
    assert NoDup(d);
  }

  // ---------------------------------------------------------------- freeing and getting blocks

  /** A loose block goes to its region's free list, or back to the system. */
  ghost function Released(m: Mem, x: int, reuse: bool): Mem
    requires x in m.blocks && 0 <= m.blocks[x].rid < |m.freel| == |m.frees|
  {
    var k := m.blocks[x].rid;
    if reuse then
      m.(blocks := m.blocks[x := m.blocks[x].(prev := m.freel[k])], freel := m.freel[k := x],
         frees := m.frees[k := [x] + m.frees[k]], home := m.home[x := Free(k)])
    else m.(blocks := m.blocks - {x}, home := m.home - {x})
  }

  lemma {:induction false} ReleasedKeepsInv(m: Mem, x: int, reuse: bool)
    requires Inv(m) && x in m.home && m.home[x] == Loose && x >= 0 && 0 <= m.blocks[x].rid < |m.freel|
    ensures Inv(Released(m, x, reuse))
  {
    var w, k := Released(m, x, reuse), m.blocks[x].rid;
    forall o | 0 <= o < |w.chains| ensures ChainOk(w, o) {
      OtherChainSame(m, w, o);
    }
    forall o | 0 <= o < |w.frees| ensures FreeOk(w, o) {
      if o != k || !reuse {
        FreeListSame(m, w, o);
      } else {
        ReleasedList(m, x);
      }
    }
    forall y | y in w.home ensures HomeOk(w, y) {
      if y != x {
        assert HomeOk(m, y);
      }
      assert reuse ==> w.frees[k][1..] == m.frees[k];
    }
  }

  lemma {:induction false} ReleasedList(m: Mem, x: int)
    requires Inv(m) && x in m.home && m.home[x] == Loose && x >= 0 && 0 <= m.blocks[x].rid < |m.freel|
    ensures FreeOk(Released(m, x, true), m.blocks[x].rid)
  {
    var w, k := Released(m, x, true), m.blocks[x].rid;
    var c, d := m.frees[k], w.frees[k];
    assert FreeOk(m, k);
    forall j | 0 <= j < |c| ensures c[j] != x && FreeLinkOk(m, k, j) {
      assert FreeLinkOk(m, k, j);
    }
    assert d[0] == x && forall j | 0 < j < |d| :: d[j] == c[j - 1];
    forall j | 0 <= j < |d| ensures FreeLinkOk(w, k, j) {
      if j > 0 {
        assert FreeLinkOk(m, k, j - 1) && At(d, j + 1) == At(c, j);
      }
    }
    assert NoDup(d);
  }

  /** A block from the system, at an address not in use. */
  ghost function Carved(m: Mem, x: int, b: Block): Mem {
    m.(blocks := m.blocks[x := b], home := m.home[x := Loose])
  }

  lemma {:induction false} CarvedKeepsInv(m: Mem, x: int, b: Block)
    requires Inv(m) && x !in m.blocks
    ensures Inv(Carved(m, x, b))
  {
    var w := Carved(m, x, b);
    forall o | 0 <= o < |w.chains| ensures ChainOk(w, o) { OtherChainSame(m, w, o); }
    forall o | 0 <= o < |w.frees| ensures FreeOk(w, o) { FreeListSame(m, w, o); }
    forall y | y in w.home ensures HomeOk(w, y) {
      assert y != x ==> HomeOk(m, y);
    }
  }

  /** The first block of region `k`'s free list. */
  ghost function Recycled(m: Mem, k: int): Mem
    requires 0 <= k < |m.freel| == |m.frees| && m.frees[k] != [] && m.freel[k] in m.blocks
  {
    m.(freel := m.freel[k := m.blocks[m.freel[k]].prev], frees := m.frees[k := m.frees[k][1..]],
       home := m.home[m.freel[k] := Loose])
  }

  lemma {:induction false} RecycledKeepsInv(m: Mem, k: int)
    requires Inv(m) && 0 <= k < |m.freel| && m.freel[k] >= 0
    ensures m.frees[k] != [] && m.freel[k] in m.blocks && m.home[m.freel[k]] == Free(k) && Inv(Recycled(m, k))
  {
    assert FreeOk(m, k) && FreeLinkOk(m, k, 0);
    var w, x := Recycled(m, k), m.freel[k];
    var c, d := m.frees[k], w.frees[k];
    forall o | 0 <= o < |w.chains| ensures ChainOk(w, o) { OtherChainSame(m, w, o); }
    forall j | 0 <= j < |d| ensures FreeLinkOk(w, k, j) {
      assert FreeLinkOk(m, k, j + 1) && d[j] == c[j + 1] && At(d, j + 1) == At(c, j + 2);
    }
    assert w.freel[k] == At(c, 1) == At(d, 0);
    forall o | 0 <= o < |w.frees| ensures FreeOk(w, o) {
      if o != k {
        FreeListSame(m, w, o);
      }
    }
    forall y | y in w.home ensures HomeOk(w, y) {
      assert HomeOk(m, y);
      if y != x && m.home[y] == Free(k) {
        var j :| 0 <= j < |c| && c[j] == y;
        assert d[j - 1] == y;
      }
    }
  }

  /** Changes of blocks that leave the links alone. */
  lemma {:induction false} SameLinksKeepInv(m: Mem, w: Mem)
    requires Inv(m) && w == m.(blocks := w.blocks) && w.blocks.Keys == m.blocks.Keys
    requires forall y | y in m.blocks :: w.blocks[y].prev == m.blocks[y].prev && w.blocks[y].self == m.blocks[y].self
    ensures Inv(w)
  {
    forall o | 0 <= o < |w.chains| ensures ChainOk(w, o) { OtherChainSame(m, w, o); }
    forall o | 0 <= o < |w.frees| ensures FreeOk(w, o) { FreeListSame(m, w, o); }
    forall y | y in w.home ensures HomeOk(w, y) { assert HomeOk(m, y); }
  }
}
