/**
 How long the blocks of a pool are there: through every operation of the registry until the pool
 itself is killed, and never in a later life of its slot.
 */
module PoolLife {
  import opened PoolState
  import opened PoolBirth
  import R = PoolRegistry

  /** What the registry's operations do, one at a time. */
  datatype Step =
    | Kills(d: set<int>)
    | Resets(rid: int)
    | Creates(idx: int, parent: int, zi: int)
    | Marks(idx: int)
    | Enters
    | Reblocks(rid: int, blocks: seq<Block>)

  ghost predicate Stepped(v: View, w: View, s: Step) {
    && Inv(v) && Inv(w)
    && match s
       case Kills(d) => Killed(v, w, d)
       case Resets(rid) => Live(v, rid) && R.WasReset(v, w, rid)
       case Creates(idx, parent, zi) => Created(v, w, idx, parent, zi)
       case Marks(idx) => 0 <= idx < |v.kind| && w == R.TableMarked(v, idx)
       case Enters => w.pools == v.pools && w.shape == v.shape.(zoneChains := v.shape.zoneChains + [[]])
       case Reblocks(rid, blocks) => Live(v, rid) && w == WithBlocks(v, rid, blocks)
  }

  /** The step kills pool `p`. */
  ghost predicate Hits(v: View, s: Step, p: int)
    requires Sizes(v)
  {
    match s
    case Kills(d) => p in d
    case Resets(rid) => p in Tree(v, rid) - {rid}
    case _ => false
  }

  /** Pool `p` owns this block, of this size at this address. */
  ghost predicate Owns(v: View, p: int, b: Block) {
    0 <= p < |v.pools| && b in v.pools[p].blocks
  }

  /** The step takes none of the blocks `a` from pool `p` by giving them back, moving or resizing them. */
  ghost predicate Spares(v: View, s: Step, p: int, a: set<Block>) {
    s.Reblocks? && s.rid == p ==> forall b | b in a && Owns(v, p, b) :: b in s.blocks
  }

  /** Slot `p` holds the pool that was made as the `born`-th. */
  ghost predicate Lives(v: View, p: int, born: nat) {
    |v.shape.birth| == |v.pools| && Live(v, p) && v.shape.birth[p] == born
  }

  // ---------------------------------------------------------------- one step

  /** A life ends exactly with a step that kills the pool, and never begins again. */
  lemma {:induction false} LifeGoesOn(v: View, w: View, s: Step, p: int, born: nat)
    requires Stepped(v, w, s) && born < v.shape.clock
    ensures Lives(w, p, born) <==> Lives(v, p, born) && !Hits(v, s, p)
    ensures v.shape.clock <= w.shape.clock
  {
    match s
    case Kills(d) => KilledLife(v, w, d, p, born);
    case Resets(rid) =>
      var u := R.WithGeneration(w, rid, v.pools[rid].generation);
      KilledLife(v, u, Tree(v, rid) - {rid}, p, born);
      assert Lives(w, p, born) <==> Lives(u, p, born);
    case Creates(idx, parent, zi) => CreatedLife(v, w, idx, parent, zi, p, born);
    case _ =>
  }

  lemma {:induction false} KilledLife(v: View, w: View, d: set<int>, p: int, born: nat)
    requires Sizes(v) && Sizes(w) && Killed(v, w, d)
    ensures Lives(w, p, born) <==> Lives(v, p, born) && p !in d
  {
    if 0 <= p < |v.pools| && p !in d {
      assert Kept(v.pools[p], w.pools[p]);
    }
  }

  lemma {:induction false} CreatedLife(v: View, w: View, idx: int, parent: int, zi: int, p: int, born: nat)
    requires Sizes(v) && Sizes(w) && Created(v, w, idx, parent, zi) && born < v.shape.clock
    ensures Lives(w, p, born) <==> Lives(v, p, born)
  {
  }

  /** As long as the pool lives it keeps its blocks. */
  lemma {:induction false} BlocksStay(v: View, w: View, s: Step, p: int, born: nat, b: Block)
    requires Stepped(v, w, s) && Lives(v, p, born) && Lives(w, p, born)
    requires Spares(v, s, p, {b}) && Owns(v, p, b)
    ensures Owns(w, p, b)
  {
    match s
    case Kills(d) => assert p !in d && Kept(v.pools[p], w.pools[p]);
    case Resets(rid) =>
      var u := R.WithGeneration(w, rid, v.pools[rid].generation);
      assert p !in Tree(v, rid) - {rid} by {
        KilledLife(v, u, Tree(v, rid) - {rid}, p, born);
        assert Lives(w, p, born) <==> Lives(u, p, born);
      }
      assert Kept(v.pools[p], u.pools[p]) && u.pools[p].blocks == w.pools[p].blocks;
    case Creates(idx, parent, zi) => assert p != idx;
    case _ =>
  }

  /** With a pool its blocks go: right after, no pool owns them. */
  lemma {:induction false} HitFrees(v: View, w: View, s: Step, p: int, x: nat)
    requires Stepped(v, w, s) && Live(v, p) && Hits(v, s, p) && OwnsAddr(v, p, x)
    ensures AddrUnowned(w.pools, x)
  {
    var d := if s.Kills? then s.d else Tree(v, s.rid) - {s.rid};
    var u := if s.Kills? then w else R.WithGeneration(w, s.rid, v.pools[s.rid].generation);
    var b :| b in v.pools[p].blocks && b.addr == x;
    var i :| 0 <= i < |v.pools[p].blocks| && v.pools[p].blocks[i] == b;
    forall q, j | 0 <= q < |w.pools| && 0 <= j < |w.pools[q].blocks| ensures w.pools[q].blocks[j].addr != x {
      assert w.pools[q].live;
      assert u.pools[q].live && q !in d && Kept(v.pools[q], u.pools[q]);
      assert v.pools[q].blocks[j] == w.pools[q].blocks[j];
    }
  }

  /** Generations never fall, and rise when a slot gets a new pool. */
  lemma {:induction false} GenerationsRise(v: View, w: View, s: Step, p: int)
    requires Stepped(v, w, s) && 0 <= p < |v.pools|
    ensures |v.pools| <= |w.pools| && v.pools[p].generation <= w.pools[p].generation
    ensures Live(w, p) && v.pools[p].generation == w.pools[p].generation ==> Live(v, p)
  {
    match s
    case Kills(d) => assert p in d || Kept(v.pools[p], w.pools[p]);
    case Resets(rid) =>
      var u := R.WithGeneration(w, rid, v.pools[rid].generation);
      assert p in Tree(v, rid) - {rid} || Kept(v.pools[p], u.pools[p]);
    case _ =>
  }

  // ---------------------------------------------------------------- what a container knows of its pool

  /**
   A container was given slot `p` in generation `gen`, for the pool made as the `born`-th, and has the
   blocks `a`: they are there as long as that pool lives, and if a live pool has the generation it is
   that pool.
   */
  ghost predicate Tied(v: View, p: int, gen: nat, born: nat, a: set<Block>) {
    && |v.shape.birth| == |v.pools| && 0 <= p < |v.pools|
    && born < v.shape.clock && 1 <= gen <= v.pools[p].generation
    && (Lives(v, p, born) ==> forall b | b in a :: Owns(v, p, b))
    && (Live(v, p) && v.pools[p].generation == gen ==> v.shape.birth[p] == born)
  }

  lemma {:induction false} TiedStays(v: View, w: View, s: Step, p: int, gen: nat, born: nat, a: set<Block>)
    requires Stepped(v, w, s) && Tied(v, p, gen, born, a) && Spares(v, s, p, a)
    ensures Tied(w, p, gen, born, a)
  {
    LifeGoesOn(v, w, s, p, born);
    GenerationsRise(v, w, s, p);
    if Lives(w, p, born) {
      forall b | b in a ensures Owns(w, p, b) {
        BlocksStay(v, w, s, p, born, b);
      }
    }
    if Live(w, p) && w.pools[p].generation == gen {
      if Hits(v, s, p) {
        DeadIfHit(v, w, s, p);
      }
    }
  }

  lemma {:induction false} DeadIfHit(v: View, w: View, s: Step, p: int)
    requires Stepped(v, w, s) && Hits(v, s, p)
    ensures !Live(w, p)
  {
    if s.Resets? {
      var u := R.WithGeneration(w, s.rid, v.pools[s.rid].generation);
      assert !Live(u, p);
    }
  }

  // ---------------------------------------------------------------- whole runs

  datatype Run = Run(views: seq<View>, steps: seq<Step>)

  ghost predicate IsRun(run: Run) {
    && |run.views| == |run.steps| + 1
    && forall i {:trigger SteppedAt(run, i)} | 0 <= i < |run.steps| :: SteppedAt(run, i)
  }

  ghost predicate SteppedAt(run: Run, i: int) {
    0 <= i < |run.steps| && i + 1 < |run.views| && Stepped(run.views[i], run.views[i + 1], run.steps[i])
  }

  /** Up to moment `i` no step gives back, moves or resizes the blocks `a`. */
  ghost predicate SparedTo(run: Run, i: nat, p: int, a: set<Block>)
    requires i <= |run.steps| <= |run.views|
  {
    forall k {:trigger SparesAt(run, k, p, a)} | 0 <= k < i :: SparesAt(run, k, p, a)
  }

  ghost predicate SparesAt(run: Run, k: int, p: int, a: set<Block>) {
    0 <= k < |run.steps| && k < |run.views| && Spares(run.views[k], run.steps[k], p, a)
  }

  /** Up to moment `i` no step kills the pool. */
  ghost predicate UnhitTo(run: Run, i: nat, p: int)
  {
    forall k {:trigger HitsAt(run, k, p)} | 0 <= k < i :: !HitsAt(run, k, p)
  }

  ghost predicate HitsAt(run: Run, k: int, p: int)
  {
    && 0 <= k < |run.steps| && k < |run.views| && Sizes(run.views[k])
    && Hits(run.views[k], run.steps[k], p)
  }

  lemma {:induction false} LifeNext(run: Run, i: nat, p: int, born: nat)
    requires IsRun(run) && i < |run.steps| && born < run.views[i].shape.clock
    ensures Lives(run.views[i + 1], p, born) <==> Lives(run.views[i], p, born) && !HitsAt(run, i, p)
    ensures born < run.views[i + 1].shape.clock
  {
    var v, w, s := run.views[i], run.views[i + 1], run.steps[i];
    assert SteppedAt(run, i);
    LifeGoesOn(v, w, s, p, born);
  }

  /** A pool lives until a step kills it. */
  lemma {:induction false} LivesUntilHit(run: Run, i: nat, p: int, born: nat)
    requires IsRun(run) && i <= |run.steps| && Lives(run.views[0], p, born) && born < run.views[0].shape.clock
    ensures Lives(run.views[i], p, born) <==> UnhitTo(run, i, p)
    ensures born < run.views[i].shape.clock
  {
    if i > 0 {
      LivesUntilHit(run, i - 1, p, born);
      LifeNext(run, i - 1, p, born);
      assert UnhitTo(run, i, p) <==> UnhitTo(run, i - 1, p) && !HitsAt(run, i - 1, p);
    }
  }

  lemma {:induction false} RunTied(run: Run, i: nat, p: int, gen: nat, born: nat, a: set<Block>)
    requires IsRun(run) && i <= |run.steps| && SparedTo(run, i, p, a) && Tied(run.views[0], p, gen, born, a)
    ensures Tied(run.views[i], p, gen, born, a)
  {
    if i > 0 {
      RunTied(run, i - 1, p, gen, born, a);
      var v, w, s := run.views[i - 1], run.views[i], run.steps[i - 1];
      assert SteppedAt(run, i - 1) && SparesAt(run, i - 1, p, a);
      TiedStays(v, w, s, p, gen, born, a);
    }
  }

  /**
   Over any run of the registry, a pool lives exactly until a step kills it, and as long as it lives it
   owns the blocks it had, whatever is made, dropped, reset or moved besides.  If the slot holds a live
   pool of the generation remembered, it is the pool, so the blocks are there.
   */
  lemma {:induction false} BlocksOutlive(run: Run, i: nat, p: int, gen: nat, born: nat, a: set<Block>)
    requires IsRun(run) && i <= |run.steps| && SparedTo(run, i, p, a)
    requires Tied(run.views[0], p, gen, born, a) && Lives(run.views[0], p, born)
    ensures Lives(run.views[i], p, born) <==> UnhitTo(run, i, p)
    ensures UnhitTo(run, i, p) ==> forall b | b in a :: Owns(run.views[i], p, b)
    ensures Live(run.views[i], p) && run.views[i].pools[p].generation == gen ==> UnhitTo(run, i, p)
  {
    LivesUntilHit(run, i, p, born);
    RunTied(run, i, p, gen, born, a);
  }

  // ---------------------------------------------------------------- a pool's first blocks

  lemma {:induction false} CreatedTied(v: View, w: View, idx: int, parent: int, zi: int)
    requires Sizes(v) && Sizes(w) && Created(v, w, idx, parent, zi)
    ensures Tied(w, idx, w.pools[idx].generation, w.shape.birth[idx], {}) && Lives(w, idx, w.shape.birth[idx])
  {
  }

  /** One more block. */
  lemma {:induction false} TakenTied(v: View, w: View, p: int, gen: nat, born: nat, a: set<Block>, b: Block)
    requires Tied(v, p, gen, born, a) && Lives(v, p, born) && w == WithBlocks(v, p, [b] + v.pools[p].blocks)
    ensures Tied(w, p, gen, born, a + {b}) && Lives(w, p, born)
    ensures forall y: nat | AddrUnowned(v.pools, y) && y != b.addr :: AddrUnowned(w.pools, y)
  {
    assert w.pools[p].blocks[0] == b && w.pools[p].blocks[1..] == v.pools[p].blocks;
    TakenElsewhere(v, w, p, b);
  }

  // ---------------------------------------------------------------- moving a block

  /** Pool `p` has the block `to` in place of `from`; nothing else has changed. */
  ghost predicate BlockMoved(v: View, w: View, p: int, from: Block, to: Block) {
    && |w.pools| == |v.pools| && w.kind == v.kind && w.zoneTop == v.zoneTop && w.shape == v.shape
    && (forall q | 0 <= q < |v.pools| ::
          w.pools[q] == v.pools[q].(blocks := w.pools[q].blocks, bytes := w.pools[q].bytes))
    && Owns(w, p, to)
    && (forall b | Owns(v, p, b) && b != from :: Owns(w, p, b))
    && forall y: nat | y != to.addr && (y == from.addr || AddrUnowned(v.pools, y)) :: AddrUnowned(w.pools, y)
  }

  lemma {:induction false} MovedIsMoved(v: View, w: View, p: int, i: nat, b: Block)
    requires OwnedOnce(v.pools) && 0 <= p < |v.pools| && i < |v.pools[p].blocks|
    requires w == WithBlocks(v, p, v.pools[p].blocks[i := b])
    ensures BlockMoved(v, w, p, v.pools[p].blocks[i], b)
  {
    var before, after, from := v.pools[p].blocks, w.pools[p].blocks, v.pools[p].blocks[i];
    assert after[i] == b;
    forall c | Owns(v, p, c) && c != from ensures Owns(w, p, c) {
      var j :| 0 <= j < |before| && before[j] == c;
      assert after[j] == c;
    }
    forall y: nat | y != b.addr && (y == from.addr || AddrUnowned(v.pools, y)) ensures AddrUnowned(w.pools, y) {
      forall q, j | 0 <= q < |w.pools| && 0 <= j < |w.pools[q].blocks| ensures w.pools[q].blocks[j].addr != y {
        assert (q == p && j == i) || w.pools[q].blocks[j] == v.pools[q].blocks[j];
      }
    }
  }

  /** At an address there is only one block. */
  lemma {:induction false} ResizedIsMoved(v: View, w: View, p: int, i: nat, from: Block, to: Block)
    requires OwnedOnce(v.pools) && Owns(v, p, from) && i < |v.pools[p].blocks| && v.pools[p].blocks[i].addr == from.addr
    requires w == WithBlocks(v, p, v.pools[p].blocks[i := to])
    ensures BlockMoved(v, w, p, from, to)
  {
    var k :| 0 <= k < |v.pools[p].blocks| && v.pools[p].blocks[k] == from;
    assert i == k;
    MovedIsMoved(v, w, p, i, to);
  }

  lemma {:induction false} MovedTied(v: View, w: View, p: int, gen: nat, born: nat, a: set<Block>, from: Block,
          to: Block)
    requires Tied(v, p, gen, born, a + {from}) && Lives(v, p, born) && BlockMoved(v, w, p, from, to) && from !in a
    ensures Tied(w, p, gen, born, a + {to}) && Lives(w, p, born)
  {
  }
}
