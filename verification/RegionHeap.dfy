/**
 The prototype's heap: one block per object, a mark epoch instead of clearing marks, an explicit
 mark stack, blocks unlinked in constant time, and one in-edge set per region.
 */
module RegionHeap {
  import opened Chains
  import opened HeapState
  import opened Marking
  import opened RegionRun
  import opened RegionState
  import A = Arena

  /** Largest value of the 32-bit epoch counter. */
  const EPOCH_MAX := 0xFFFF_FFFF

  /**
   What a program may do, in terms of its root slots: allocate into a slot, load a pointer of a block,
   write a slot's pointer into a block, clear a slot, collect a region.
   */
  datatype Op =
    | New(rid: int, size: int, pointers: nat, slot: int, addr: int)
    | LoadPointer(slot: int, from: int, i: int)
    | StorePointer(slot: int, i: int, from: int)
    | Clear(slot: int)
    | Collect(rid: int, check: bool)

  class RegionHeap {
    var blocks: map<int, Block>
    var top: seq<int>
    var freel: seq<int>
    var rs: seq<seq<int>>
    var stack: seq<int>
    var epoch: int
    var rsBad: int
    var roots: seq<int>
    const reuse: bool
    ghost var chains: seq<seq<int>>
    ghost var frees: seq<seq<int>>
    ghost var home: map<int, Home>

    ghost function State(): Mem
      reads this`blocks, this`top, this`freel, this`chains, this`frees, this`home
    {
      Mem(blocks, top, freel, chains, frees, home)
    }

    ghost function Now(): Moment
      reads this`blocks, this`top, this`freel, this`chains, this`frees, this`home, this`rs, this`roots, this`rsBad
    {
      Moment(State(), rs, roots, rsBad)
    }

    /** Chains and free lists are in order and no block carries a mark of an epoch to come. */
    ghost predicate Valid()
      reads this`blocks, this`top, this`freel, this`chains, this`frees, this`home, this`epoch
    {
      Inv(State()) && RegionsKnown(State()) && MarksPast(blocks, epoch)
    }

    /** All roots, pointers of blocks in use and in-edge sets are in order as well. */
    ghost predicate Regions()
      reads this`blocks, this`top, this`freel, this`chains, this`frees, this`home, this`rs, this`roots
    {
      RegionInv(State(), rs, roots)
    }

    constructor (regions: nat, slots: nat, reuse: bool)
      ensures Valid() && Regions() && |top| == regions && |roots| == slots && blocks == map[]
      ensures epoch == 0 && rsBad == 0 && this.reuse == reuse && (forall r | r in roots :: r == -1)
      ensures |rs| == |chains| == regions && forall k | 0 <= k < regions :: rs[k] == [] && chains[k] == []
    {
      this.reuse := reuse;
      blocks, top, freel := map[], seq(regions, _ => -1), seq(regions, _ => -1);
      rs, stack, epoch, rsBad, roots := seq(regions, _ => []), [], 0, 0, seq(slots, _ => -1);
      chains, frees, home := seq(regions, _ => []), seq(regions, _ => []), map[];
    }

    // ---------------------------------------------------------------- marking

    method PushAll(entries: seq<int>)
      modifies this`stack
      ensures stack == old(stack) + entries
    {
      for i := 0 to |entries|
        invariant stack == old(stack) + entries[..i]
      {
        stack := stack + [entries[i]];
      }
    }

    /** The pointers of a block that are not null are pushed. */
    method PushPointers(ptrs: seq<int>)
      modifies this`stack
      ensures stack == old(stack) + NonNull(ptrs)
    {
      var i := 0;
      while i < |ptrs|
        invariant 0 <= i <= |ptrs| && stack == old(stack) + NonNull(ptrs[..i])
      {
        assert ptrs[..i + 1][..i] == ptrs[..i];
        if ptrs[i] >= 0 {
          stack := stack + [ptrs[i]];
        }
        i := i + 1;
      }
      assert ptrs[..i] == ptrs;
    }

    /** A block gets the mark, and its pointers are pushed if they are followed. */
    method MarkOne(o: int, scope: Scope, e: int)
      requires o in blocks
      modifies this`blocks, this`stack
      ensures blocks == old(blocks)[o := old(blocks)[o].(mark := e)]
      ensures stack == old(stack) + Pushes(old(blocks), scope, o)
    {
      var b := blocks[o];
      blocks := blocks[o := b.(mark := e)];
      if scope.Everywhere? || b.rid == scope.rid {
        PushPointers(b.ptrs);
      } else {
        assert stack + [] == stack;
      }
    }

    /**
     The mark loop: with the stack holding the seeds, exactly the blocks that can be reached get the
     mark, each once.
     */
    method Mark(scope: Scope, e: int) returns (marked: int, ghost d: set<int>)
      requires forall x | Reach(blocks, scope, Members(stack), x) :: x in blocks
      requires forall x | x in blocks :: blocks[x].mark != e
      modifies this`blocks, this`stack
      ensures IsReached(old(blocks), scope, Members(old(stack)), d) && marked == |d|
      ensures Marked(old(blocks), blocks, d, e)
    {
      ghost var seeds := Members(stack);
      ghost var b0 := blocks;
      d, marked := {}, 0;
      ProgressStart(blocks, scope, stack);
      while stack != []
        invariant Progress(b0, scope, seeds, d, stack)
        invariant Marked(b0, blocks, d, e) && marked == |d|
        decreases b0.Keys - d, |stack|
      {
        ghost var waiting := stack;
        var o := stack[|stack| - 1];
        LastWaits(waiting);
        MarkedAt(b0, blocks, scope, d, o, e);
        stack := stack[..|stack| - 1];
        if blocks[o].mark == e {
          ProgressPop(b0, scope, seeds, d, waiting);
        } else {
          ProgressMark(b0, scope, seeds, d, waiting);
          MarkOne(o, scope, e);
          marked := marked + 1;
          d := d + {o};
        }
      }
      ProgressDone(b0, scope, seeds, d);
    }

    method Visit(o: int, ve: int, rid: int, e: int)
      requires o in blocks
      modifies this`blocks, this`stack, this`rsBad
      ensures blocks == old(blocks)[o := old(blocks)[o].(vmark := ve)]
      ensures stack == old(stack) + NonNull(old(blocks)[o].ptrs)
      ensures rsBad == old(rsBad) + if old(blocks)[o].rid == rid && old(blocks)[o].mark != e then 1 else 0
    {
      var b := blocks[o];
      blocks := blocks[o := b.(vmark := ve)];
      if b.rid == rid && b.mark != e {
        rsBad := rsBad + 1;
      }
      PushPointers(b.ptrs);
    }

    /**
     The self-check: everything reachable from the seeds is visited once, and the blocks of the region
     without the sweep's mark are counted as bad.
     */
    method Verify(ve: int, rid: int, e: int) returns (ghost v: set<int>)
      requires forall x | Reach(blocks, Everywhere, Members(stack), x) :: x in blocks
      requires forall x | x in blocks :: blocks[x].vmark != ve
      modifies this`blocks, this`stack, this`rsBad
      ensures IsReached(old(blocks), Everywhere, Members(old(stack)), v) && v <= old(blocks).Keys
      ensures Visited(old(blocks), blocks, v, ve)
      ensures rsBad == old(rsBad) + |Missed(old(blocks), v, rid, e)|
    {
      ghost var seeds := Members(stack);
      ghost var b0 := blocks;
      v := {};
      ProgressStart(blocks, Everywhere, stack);
      while stack != []
        invariant Progress(b0, Everywhere, seeds, v, stack)
        invariant Visited(b0, blocks, v, ve) && rsBad == old(rsBad) + |Missed(b0, v, rid, e)|
        decreases b0.Keys - v, |stack|
      {
        ghost var waiting := stack;
        var o := stack[|stack| - 1];
        LastWaits(waiting);
        VisitedPlus(b0, blocks, v, o, ve);
        stack := stack[..|stack| - 1];
        if blocks[o].vmark == ve {
          ProgressPop(b0, Everywhere, seeds, v, waiting);
        } else {
          ProgressMark(b0, Everywhere, seeds, v, waiting);
          MissedPlus(b0, v, o, rid, e);
          Visit(o, ve, rid, e);
          v := v + {o};
        }
      }
      ProgressDone(b0, Everywhere, seeds, v);
    }

    // ---------------------------------------------------------------- links

    /** `*p`. */
    function Peek(p: Place): (x: int)
      requires PlaceOk(State(), p)
      reads this`blocks, this`top, this`freel, this`chains, this`frees, this`home
      ensures x == Load(State(), p)
    {
      match p case TopOf(k) => top[k] case PrevOf(y) => blocks[y].prev
    }

    /** Takes block `x` out of its chain; the write through `self` also serves the arena's top. */
    method Unlink(x: int, ghost k: int, ghost i: int)
      requires Inv(State()) && 0 <= k < |chains| && 0 <= i < |chains[k]| && chains[k][i] == x
      modifies this`blocks, this`top, this`chains, this`home
      ensures State() == Unlinked(old(State()), k, i)
    {
      assert ChainOk(State(), k) && LinkOk(State(), k, i);
      assert i > 0 ==> LinkOk(State(), k, i - 1);
      assert i + 1 < |chains[k]| ==> LinkOk(State(), k, i + 1);
      var b := blocks[x];
      match b.self {
        case TopOf(a) => top := top[a := b.prev];
        case PrevOf(y) => blocks := blocks[y := blocks[y].(prev := b.prev)];
      }
      if b.prev >= 0 {
        blocks := blocks[b.prev := blocks[b.prev].(self := b.self)];
      }
      chains, home := chains[k := chains[k][..i] + chains[k][i + 1..]], home[x := Loose];
    }

    /** A loose block becomes the top of an arena. */
    method PushTop(a: int, x: int)
      requires Inv(State()) && 0 <= a < |top| && x in home && home[x] == Loose && x >= 0
      modifies this`blocks, this`top, this`chains, this`home
      ensures State() == Pushed(old(State()), a, x)
    {
      assert ChainOk(State(), a);
      assert top[a] >= 0 ==> LinkOk(State(), a, 0);
      blocks := blocks[x := blocks[x].(prev := top[a], self := TopOf(a))];
      if top[a] >= 0 {
        blocks := blocks[top[a] := blocks[top[a]].(self := PrevOf(x))];
      }
      top, chains, home := top[a := x], chains[a := [x] + chains[a]], home[x := Used(a)];
    }

    /** `blk_free_or_reuse`. */
    method FreeOrReuse(x: int)
      requires x in blocks && 0 <= blocks[x].rid < |freel| == |frees|
      modifies this`blocks, this`freel, this`frees, this`home
      ensures State() == Released(old(State()), x, reuse)
    {
      var k := blocks[x].rid;
      if reuse {
        blocks, freel, frees := blocks[x := blocks[x].(prev := freel[k])], freel[k := x], frees[k := [x] + frees[k]];
        home := home[x := Free(k)];
      } else {
        blocks, home := blocks - {x}, home - {x};
      }
    }

    /** Block `x` is unlinked and freed. */
    method Drop(x: int, ghost k: int, ghost i: int)
      requires Valid() && 0 <= k < |chains| && 0 <= i < |chains[k]| && chains[k][i] == x
      modifies this`blocks, this`top, this`freel, this`chains, this`frees, this`home
      ensures Valid() && State() == Dropped(old(State()), k, i, reuse)
    {
      ghost var m := State();
      DroppedInOrder(m, k, i, reuse);
      DroppedKeepsMarks(m, k, i, reuse, epoch);
      Unlink(x, k, i);
      FreeOrReuse(x);
    }

    /** The body of the sweep's loop: the cursor moves past a marked block, and any other is unlinked and freed. */
    method SweepOne(x: int, l: Place, k: int, e: int, ghost m: Mem, ghost i: int, ghost d: set<int>)
      returns (next: Place, n: nat, ghost j: int)
      requires Inv(m) && RegionsKnown(m) && 0 <= k < |m.chains|
      requires Valid() && Sweeping(m, State(), k, i, d, e, reuse) && i < |chains[k]| && x == chains[k][i]
      requires l == Cursor(State(), k, i)
      modifies this`blocks, this`top, this`freel, this`chains, this`frees, this`home
      ensures Valid() && Sweeping(m, State(), k, j, d, e, reuse) && next == Cursor(State(), k, j)
      ensures |chains[k]| == |old(chains)[k]| - n && |chains[k]| - j < |old(chains)[k]| - i
    {
      SweepKeeps(m, State(), k, i, d, e, reuse);
      if blocks[x].mark == e {
        // its back pointer is that place already
        next, n, j := PrevOf(x), 0, i + 1;
      } else {
        SweepDrops(m, State(), k, i, d, e, reuse);
        Drop(x, k, i);
        next, n, j := l, 1, i;
      }
    }

    /**
     The sweep over a chain: blocks with mark `e`, which are those in `d`, stay; the others are unlinked and
     freed.
     */
    method SweepChain(k: int, e: int, ghost d: set<int>) returns (freed: int)
      requires Valid() && 0 <= k < |top| && ChainMarked(State(), k, d, e)
      modifies this`blocks, this`top, this`freel, this`chains, this`frees, this`home
      ensures Valid() && |top| == |old(top)| && State() == SweptFrom(old(State()), k, 0, d, reuse)
      ensures freed == |old(chains)[k]| - |chains[k]|
    {
      ghost var m := State();
      ghost var i := 0;
      freed := 0;
      var l := TopOf(k);
      CursorLoads(m, k, 0);
      while Peek(l) >= 0
        invariant Valid() && Sweeping(m, State(), k, i, d, e, reuse)
        invariant l == Cursor(State(), k, i) && PlaceOk(State(), l) && Peek(l) == At(chains[k], i)
        invariant freed == |m.chains[k]| - |chains[k]|
        decreases |chains[k]| - i
      {
        CursorLoads(State(), k, i);
        var n;
        l, n, i := SweepOne(Peek(l), l, k, e, m, i, d);
        CursorLoads(State(), k, i);
        freed := freed + n;
      }
      SweepDone(m, State(), k, i, d, e, reuse);
    }

    /** The bytes still held by an arena, block by block. */
    method Recount(k: int) returns (total: int)
      requires Valid() && 0 <= k < |top|
      ensures total == SumCaps(blocks, chains[k])
    {
      ghost var i := 0;
      total := 0;
      assert ChainOk(State(), k);
      var x := top[k];
      while x >= 0
        invariant 0 <= i <= |chains[k]| && x == At(chains[k], i)
        invariant total + SumCaps(blocks, chains[k][i..]) == SumCaps(blocks, chains[k])
        decreases |chains[k]| - i
      {
        assert LinkOk(State(), k, i);
        assert chains[k][i..][1..] == chains[k][i + 1..];
        total := total + blocks[x].cap;
        x := blocks[x].prev;
        i := i + 1;
      }
      ChainEnds(State(), k, i);
    }

    // ---------------------------------------------------------------- sweeping one region

    /** A new epoch; nothing carries it yet. */
    method NextEpoch() returns (e: int)
      requires Valid() && epoch < EPOCH_MAX
      modifies this`epoch
      ensures Valid() && e == epoch == old(epoch) + 1
      ensures forall x | x in blocks :: blocks[x].mark != e && blocks[x].vmark != e
    {
      epoch := epoch + 1;
      e := epoch;
    }

    /** The stack is filled with the region's own roots and its in-edge set. */
    method PushSeeds(rid: int, own: seq<int>)
      requires 0 <= rid < |rs|
      modifies this`stack
      ensures Members(stack) == Seeds(rs, rid, own)
    {
      stack := [];
      PushPointers(own);
      PushAll(rs[rid]);
      SeedsPushed(rs, rid, own, stack);
    }

    /**
     The mark phase of `sweep_rs`: from the region's own roots and its in-edge set, not past other regions'
     blocks.
     */
    method MarkRegion(rid: int, own: seq<int>) returns (e: int, marked: int, ghost d: set<int>)
      requires Valid() && 0 <= rid < |rs| && epoch < EPOCH_MAX
      requires forall x | Reach(blocks, Within(rid), Seeds(rs, rid, own), x) :: x in blocks
      modifies this`blocks, this`stack, this`epoch
      ensures Valid() && e == epoch == old(epoch) + 1
      ensures IsReached(old(blocks), Within(rid), Seeds(rs, rid, own), d) && marked == |d|
      ensures Marked(old(blocks), blocks, d, e) && MarkedExactly(blocks, d, e)
    {
      ghost var m := State();
      e := NextEpoch();
      PushSeeds(rid, own);
      marked, d := Mark(Within(rid), e);
      MarkedInOrder(m, blocks, d, e);
    }

    /**
     The optional check of `sweep_rs`: counts the blocks of the region that the roots lead to and the mark has
     missed.
     */
    method VerifyRegion(rid: int, e: int, ghost d: set<int>) returns (ghost v: set<int>)
      requires Valid() && epoch < EPOCH_MAX && forall x | Reach(blocks, Everywhere, RootSet(roots), x) :: x in blocks
      requires MarkedExactly(blocks, d, e)
      modifies this`blocks, this`stack, this`epoch, this`rsBad
      ensures Valid() && epoch == old(epoch) + 1
      ensures IsReached(old(blocks), Everywhere, RootSet(roots), v)
      ensures rsBad == old(rsBad) + |Overlooked(old(blocks), v, rid, d)|
      ensures Remarked(old(blocks), blocks) && MarkedExactly(blocks, d, e)
    {
      ghost var m := State();
      var ve := NextEpoch();
      stack := [];
      PushPointers(roots);
      RootsPushed(roots, stack);
      v := Verify(ve, rid, e);
      VisitedInOrder(m, blocks, v, ve);
      MissedIsOverlooked(m.blocks, v, rid, e, d);
    }

    /** The phases of `sweep_rs` before anything is freed. */
    method MarkAndCheck(rid: int, own: seq<int>, check: bool)
      returns (e: int, marked: int, ghost d: set<int>, ghost visited: set<int>)
      requires Valid() && 0 <= rid < |rs| && epoch + 2 <= EPOCH_MAX
      requires forall x | Reach(blocks, Within(rid), Seeds(rs, rid, own), x) :: x in blocks
      requires check ==> forall x | Reach(blocks, Everywhere, RootSet(roots), x) :: x in blocks
      modifies this`blocks, this`stack, this`epoch, this`rsBad
      ensures Valid() && epoch <= old(epoch) + 2
      ensures IsReached(old(blocks), Within(rid), Seeds(rs, rid, own), d) && marked == |d|
      ensures check ==> IsReached(old(blocks), Everywhere, RootSet(roots), visited)
      ensures rsBad == old(rsBad) + if check then |Overlooked(old(blocks), visited, rid, d)| else 0
      ensures Remarked(old(blocks), blocks) && MarkedExactly(blocks, d, e)
    {
      ghost var b0 := blocks;
      e, marked, d := MarkRegion(rid, own);
      MarkedIsRemarked(b0, blocks, d, e);
      visited := {};
      if check {
        ghost var b1 := blocks;
        RemarkedAlike(b0, b1, RootSet(roots));
        visited := VerifyRegion(rid, e, d);
        RemarkedTwice(b0, b1, blocks, RootSet(roots), rid, d, visited);
      }
    }

    /** The phases of `sweep_rs` after the marks: the chain is swept, and what is left counted. */
    method SweepMarked(k: int, e: int, ghost d: set<int>) returns (freed: int, bytes: int)
      requires Valid() && 0 <= k < |top| && ChainMarked(State(), k, d, e)
      modifies this`blocks, this`top, this`freel, this`chains, this`frees, this`home
      ensures Valid() && |top| == |old(top)| && |chains| == |top| && State() == SweptFrom(old(State()), k, 0, d, reuse)
      ensures freed == |Unmarked(old(State()), k, d)| && bytes == SumCaps(blocks, chains[k])
    {
      SweptCount(State(), k, d, reuse);
      freed := SweepChain(k, e, d);
      bytes := Recount(k);
    }

    /**
     `sweep_rs`, whatever state the regions are in, as long as the marks meet no stray pointer: it looks
     at one region only and frees exactly those blocks of its arena that neither `own` nor the in-edge set
     lead to.
     */
    method SweepLocal(rid: int, own: seq<int>, check: bool)
      returns (marked: int, freed: int, bytes: int, ghost d: set<int>, ghost visited: set<int>,
               ghost marks: map<int, Block>)
      requires Valid() && 0 <= rid < |rs| && rid < |top| && epoch + 2 <= EPOCH_MAX
      requires forall x | Reach(blocks, Within(rid), Seeds(rs, rid, own), x) :: x in blocks
      requires check ==> forall x | Reach(blocks, Everywhere, RootSet(roots), x) :: x in blocks
      modifies this`blocks, this`top, this`freel, this`stack, this`epoch, this`rsBad
      modifies this`chains, this`frees, this`home
      ensures Valid() && epoch <= old(epoch) + 2
      ensures IsReached(old(blocks), Within(rid), Seeds(rs, rid, own), d) && marked == |d|
      ensures check ==> IsReached(old(blocks), Everywhere, RootSet(roots), visited)
      ensures rsBad == old(rsBad) + if check then |Overlooked(old(blocks), visited, rid, d)| else 0
      ensures rsBad == old(rsBad) <==>
                (check ==> forall x | x in visited && x in old(blocks) && old(blocks)[x].rid == rid :: x in d)
      ensures Remarked(old(blocks), marks)
      ensures Inv(old(State()).(blocks := marks)) && RegionsKnown(old(State()).(blocks := marks))
      ensures State() == SweptFrom(old(State()).(blocks := marks), rid, 0, d, reuse)
      ensures |chains| == |old(chains)|
      ensures freed == |Unmarked(old(State()), rid, d)| && bytes == SumCaps(blocks, chains[rid])
      ensures SentBack(State(), Unmarked(old(State()), rid, d), reuse)
    {
      ghost var m := State();
      var e;
      e, marked, d, visited := MarkAndCheck(rid, own, check);
      NothingOverlookedIff(m.blocks, visited, rid, d);
      marks := blocks;
      RemarkedLinks(m, marks);
      ghost var u := State();
      ChainIsMarked(u, rid, d, e);
      SweptSends(u, rid, d, reuse);
      freed, bytes := SweepMarked(rid, e, d);
      SameUnmarked(m, u, rid, d);
    }

    /**
     `sweep_rs` with the regions in order: exactly the region's blocks that neither its own roots nor its
     in-edge set lead to are freed.  Nothing the program can reach from any root, in any region, is freed
     or changed; and the self-check counter stays where it was.
     */
    method SweepRs(rid: int, own: seq<int>, check: bool)
      returns (marked: int, freed: int, bytes: int, ghost d: set<int>, ghost s: Step)
      requires Valid() && Regions() && 0 <= rid < |rs| && Covers(State(), rid, own, roots) && epoch + 2 <= EPOCH_MAX
      modifies this`blocks, this`top, this`freel, this`stack, this`epoch, this`rsBad
      modifies this`chains, this`frees, this`home
      ensures Valid() && Regions() && rsBad == old(rsBad) && epoch <= old(epoch) + 2
      ensures IsReached(old(blocks), Within(rid), Seeds(rs, rid, own), d) && marked == |d|
      ensures Collected(old(State()), State(), rid, Unmarked(old(State()), rid, d), RootSet(roots))
      ensures freed == |Unmarked(old(State()), rid, d)| && bytes == SumCaps(blocks, chains[rid])
      ensures SentBack(State(), Unmarked(old(State()), rid, d), reuse)
      ensures s.Sweeps? && s.rid == rid && s.own == own && s.check == check && s.d == d
      ensures Stepped(old(Now()), Now(), s)
    {
      ghost var a := Now();
      LocalMarkMeetsBlocks(a, rid, own);
      ghost var visited, marks;
      marked, freed, bytes, d, visited, marks := SweepLocal(rid, own, check);
      s := Sweeps(rid, own, d, check, visited, marks, reuse);
      SweepEnds(a, Now(), s);
    }

    /**
     `extc_sweep`: marks everything the given roots lead to, in all regions, and frees the rest of one
     arena.  It needs no in-edge sets, only that what the roots lead to is in use.
     */
    method SweepFromRoots(k: int, given: seq<int>) returns (marked: int, bytes: int, ghost d: set<int>)
      requires Valid() && 0 <= k < |top| && epoch < EPOCH_MAX
      requires forall x | Reach(blocks, Everywhere, RootSet(given), x) :: x in blocks && IsUsed(State(), x)
      modifies this`blocks, this`top, this`freel, this`stack, this`epoch, this`chains, this`frees, this`home
      ensures Valid()
      ensures IsReached(old(blocks), Everywhere, RootSet(given), d) && marked == |d|
      ensures Collected(old(State()), State(), k, Unmarked(old(State()), k, d), RootSet(given))
      ensures bytes == SumCaps(blocks, chains[k]) && SentBack(State(), Unmarked(old(State()), k, d), reuse)
    {
      ghost var m := State();
      var e := NextEpoch();
      stack := [];
      PushPointers(given);
      RootsPushed(given, stack);
      marked, d := Mark(Everywhere, e);
      MarkedInOrder(m, blocks, d, e);
      ghost var u := State();
      ChainIsMarked(u, k, d, e);
      SweptWhole(u, k, d, reuse);
      CollectedFromRoots(m, u, SweptFrom(u, k, 0, d, reuse), k, RootSet(given), d);
      var freed;
      freed, bytes := SweepMarked(k, e, d);
    }

    // ---------------------------------------------------------------- allocation and single blocks

    /** A block for the region: the head of its free list if it is large enough, or one from the system at `addr`. */
    method TakeBlock(rid: int, n: int, addr: int) returns (x: int)
      requires CanTake(State(), rid, addr)
      modifies this`blocks, this`freel, this`frees, this`home
      ensures State() == Taken(old(State()), rid, n, addr, reuse) && x == Spot(old(State()), rid, n, addr, reuse)
    {
      if reuse && freel[rid] >= 0 {
        RecycledKeepsInv(State(), rid);
      }
      if reuse && freel[rid] >= 0 && blocks[freel[rid]].cap >= n {
        x := freel[rid];
        freel, frees := freel[rid := blocks[x].prev], frees[rid := frees[rid][1..]];
        home := home[x := Loose];
      } else {
        x := addr;
        blocks := blocks[x := Block(-1, TopOf(rid), n, 0, rid, 0, 0, [])];
        home := home[x := Loose];
      }
    }

    /**
     `extc_alloc_solo`: a zeroed block on top of arena `a`; its size is at least one and a multiple of
     eight.  What was in use stays as it was; put into its own region's arena, it is a step of a run.
     */
    method AllocSolo(a: int, rid: int, size: int, pointers: nat, addr: int) returns (x: int)
      requires Valid() && 0 <= a < |top| && 0 <= rid < |top| && addr >= 0 && addr !in blocks
      modifies this`blocks, this`top, this`freel, this`chains, this`frees, this`home
      ensures Valid() && NewIn(old(State()), State(), x) && home[x] == Used(a)
      ensures chains == old(chains)[a := [x] + old(chains)[a]]
      ensures blocks[x].ptrs == Nulls(pointers) && blocks[x].rid == rid && blocks[x].rsmark == 0
      ensures blocks[x].cap == A.RoundUp(size) && (old(freel)[rid] >= 0 ==> old(freel[rid] in blocks))
      ensures x != addr <==> reuse && old(freel[rid] >= 0 && blocks[freel[rid]].cap >= A.RoundUp(size))
      ensures x != addr ==> x == old(freel[rid]) && x in old(blocks) && size <= blocks[x].cap <= old(blocks)[x].cap
      ensures State() == Allocated(old(State()), a, rid, A.RoundUp(size), pointers, addr, reuse)
      ensures a == rid ==> Stepped(old(Now()), Now(), Allocates(rid, A.RoundUp(size), pointers, addr, reuse))
      ensures old(Regions()) && a == rid ==> Regions()
    {
      ghost var m := State();
      var n := A.RoundUp(size);
      AllocatedInOrder(m, a, rid, n, pointers, addr, reuse);
      AllocatedMarks(m, a, rid, n, pointers, addr, reuse, epoch);
      FreeListHead(m, rid);
      x := SetUp(a, rid, n, pointers, addr);
      if a == rid && RegionInv(m, rs, roots) {
        AllocatedKeepsRegions(m, rid, n, pointers, addr, reuse, rs, roots);
      }
    }

    /** The block is found, its header written, and it becomes the top of the arena. */
    method SetUp(a: int, rid: int, n: int, pointers: nat, addr: int) returns (x: int)
      requires CanTake(State(), rid, addr) && 0 <= a < |top|
      modifies this`blocks, this`top, this`freel, this`chains, this`frees, this`home
      ensures x == Spot(old(State()), rid, n, addr, reuse)
      ensures State() == Allocated(old(State()), a, rid, n, pointers, addr, reuse)
    {
      TakenInOrder(State(), rid, n, addr, reuse);
      x := TakeBlock(rid, n, addr);
      SetUpInOrder(State(), x, rid, n, pointers);
      blocks := blocks[x := NewBlock(blocks[x], rid, n, pointers)];
      PushTop(a, x);
    }

    /** `extc_free_solo`: a block is unlinked in constant time and freed; nothing else changes. */
    method FreeSolo(x: int, ghost k: int, ghost i: int)
      requires Valid() && 0 <= k < |chains| && 0 <= i < |chains[k]| && chains[k][i] == x
      modifies this`blocks, this`top, this`chains, this`home
      ensures Valid() && x !in blocks && chains == old(chains)[k := old(chains)[k][..i] + old(chains)[k][i + 1..]]
      ensures forall y {:trigger KeptBlock(old(State()), State(), y)} | y in old(home) && y != x ::
                KeptBlock(old(State()), State(), y)
    {
      ghost var m := State();
      DroppedInOrder(m, k, i, false);
      DroppedKeepsMarks(m, k, i, false, epoch);
      OneCleared(m, k, i);
      Unlink(x, k, i);
      blocks, home := blocks - {x}, home - {x};
      assert State() == Dropped(m, k, i, false);
    }

    /**
     `extc_promote`: the block moves to the top of another arena, where it keeps its address, its
     contents and its region number.
     */
    method Promote(x: int, to: int, ghost k: int, ghost i: int)
      requires Valid() && 0 <= k < |chains| && 0 <= i < |chains[k]| && chains[k][i] == x && 0 <= to < |top|
      modifies this`blocks, this`top, this`chains, this`home
      ensures Valid() && IsUsed(old(State()), x) && x in old(blocks)
      ensures SameBlocks(old(blocks), blocks) && home == old(home)[x := Used(to)]
      ensures var c := old(chains)[k := old(chains)[k][..i] + old(chains)[k][i + 1..]]; chains == c[to := [x] + c[to]]
      ensures old(Regions()) ==> (Regions() <==> to == old(blocks)[x].rid)
    {
      ghost var m := State();
      MovedInOrder(m, k, i, to, epoch);
      Move(x, to, k, i);
      if RegionInv(m, rs, roots) {
        MovedKeepsRegionsIff(m, State(), rs, roots, x, to);
      }
    }

    method Move(x: int, to: int, ghost k: int, ghost i: int)
      requires Inv(State()) && 0 <= k < |chains| && 0 <= i < |chains[k]| && chains[k][i] == x && 0 <= to < |top|
      modifies this`blocks, this`top, this`chains, this`home
      ensures State() == Moved(old(State()), k, i, to)
    {
      UnlinkedKeepsInv(State(), k, i);
      InOwnChain(State(), k, x);
      assert ChainOk(State(), k) && LinkOk(State(), k, i);
      Unlink(x, k, i);
      PushTop(to, x);
    }

    // ---------------------------------------------------------------- what the program does

    /** `rs_add`: a block enters its region's in-edge set once. */
    method RsAdd(rid: int, v: int)
      requires v in blocks && 0 <= rid < |rs|
      modifies this`blocks, this`rs
      ensures blocks == old(blocks)[v := old(blocks)[v].(rsmark := RS_EPOCH)]
      ensures rs == if old(blocks)[v].rsmark == RS_EPOCH then old(rs) else old(rs)[rid := old(rs)[rid] + [v]]
    {
      if blocks[v].rsmark == RS_EPOCH {
        assert blocks == blocks[v := blocks[v].(rsmark := RS_EPOCH)];
        return;
      }
      blocks := blocks[v := blocks[v].(rsmark := RS_EPOCH)];
      rs := rs[rid := rs[rid] + [v]];
    }

    /** `store_rs`: a pointer is written, and if it leads out of the slot's region its target is registered. */
    method StoreRs(x: int, i: int, v: int)
      requires Valid() && Regions() && CanWrite(State(), x, i, v)
      modifies this`blocks, this`rs
      ensures Valid() && Regions() && blocks == Written(old(blocks), x, i, v)
      ensures Crosses(old(blocks), x, v) ==> 0 <= old(blocks)[v].rid < |old(rs)|
      ensures rs == Registered(old(blocks), old(rs), x, v)
      ensures Stepped(old(Now()), Now(), Writes(x, i, v))
    {
      ghost var a := Now();
      WrittenKeepsRegions(a.m, rs, roots, x, i, v);
      blocks := blocks[x := blocks[x].(ptrs := blocks[x].ptrs[i := v])];
      if v >= 0 && blocks[v].rid != blocks[x].rid {
        RsAdd(blocks[v].rid, v);
      }
      WrittenBlocks(a.m, x, i, v, epoch);
    }

    /** A root slot is overwritten. */
    method SetRoot(slot: int, v: int)
      requires Valid() && Regions() && 0 <= slot < |roots| && (v < 0 || (IsUsed(State(), v) && v in blocks))
      modifies this`roots
      ensures Valid() && Regions() && roots == old(roots)[slot := v]
      ensures Stepped(old(Now()), Now(), SetsRoot(slot, v))
    {
      roots := roots[slot := v];
    }

    // ---------------------------------------------------------------- whole programs

    /** The roots that lead into a region. */
    method OwnRoots(rid: int) returns (own: seq<int>)
      requires Valid() && Regions()
      ensures Covers(State(), rid, own, roots)
    {
      own := [];
      for i := 0 to |roots|
        invariant forall r | r in own && r >= 0 :: IsUsed(State(), r) && r in blocks
        invariant forall r | r in roots[..i] && r >= 0 && r in blocks && blocks[r].rid == rid :: r in own
      {
        var r := roots[i];
        assert roots[..i + 1] == roots[..i] + [r] && r in roots;
        if r >= 0 && blocks[r].rid == rid {
          own := own + [r];
        }
      }
      assert roots[..|roots|] == roots;
    }

    /** One operation of a program, done if it makes sense; it is a step of a run, or two, or none. */
    method Perform(op: Op, ghost run: Run) returns (ghost longer: Run)
      requires Valid() && Regions() && epoch + 2 <= EPOCH_MAX && |rs| == |top|
      requires IsRun(run) && run.moments[|run.steps|] == Now()
      modifies this
      ensures Valid() && Regions() && |rs| == |top| && epoch <= old(epoch) + 2
      ensures IsRun(longer) && longer.moments[0] == run.moments[0] && longer.moments[|longer.steps|] == Now()
    {
      longer := run;
      match op
      case New(rid, size, pointers, slot, addr) =>
        if 0 <= rid < |top| && 0 <= slot < |roots| && addr >= 0 && addr !in blocks {
          longer := AllocateInto(rid, size, pointers, slot, addr, run);
        }
      case LoadPointer(slot, from, i) =>
        if 0 <= slot < |roots| && 0 <= from < |roots| && roots[from] >= 0 {
          longer := LoadInto(slot, from, i, run);
        }
      case StorePointer(slot, i, from) =>
        if 0 <= slot < |roots| && 0 <= from < |roots| && roots[slot] >= 0 {
          longer := StoreFrom(slot, i, from, run);
        }
      case Clear(slot) =>
        if 0 <= slot < |roots| {
          SetRoot(slot, -1);
          longer := RunPlus(run, SetsRoot(slot, -1), Now());
        }
      case Collect(rid, check) =>
        if 0 <= rid < |rs| {
          var own := OwnRoots(rid);
          var marked, freed, bytes;
          ghost var d, s;
          marked, freed, bytes, d, s := SweepRs(rid, own, check);
          longer := RunPlus(run, s, Now());
        }
    }

    /** A pointer of the block a root names is loaded into a root slot, if there is such a pointer. */
    method LoadInto(slot: int, from: int, i: int, ghost run: Run) returns (ghost longer: Run)
      requires Valid() && Regions() && 0 <= slot < |roots| && 0 <= from < |roots| && roots[from] >= 0
      requires IsRun(run) && run.moments[|run.steps|] == Now()
      modifies this`roots
      ensures Valid() && Regions()
      ensures IsRun(longer) && longer.moments[0] == run.moments[0] && longer.moments[|longer.steps|] == Now()
    {
      longer := run;
      RootIsUsed(Now(), from);
      if 0 <= i < |blocks[roots[from]].ptrs| {
        var v := blocks[roots[from]].ptrs[i];
        PointerIsUsed(Now(), from, i);
        SetRoot(slot, v);
        longer := RunPlus(run, SetsRoot(slot, v), Now());
      }
    }

    /** What one root names is stored into a pointer of the block another names, if there is such a pointer. */
    method StoreFrom(slot: int, i: int, from: int, ghost run: Run) returns (ghost longer: Run)
      requires Valid() && Regions() && 0 <= slot < |roots| && 0 <= from < |roots| && roots[slot] >= 0
      requires IsRun(run) && run.moments[|run.steps|] == Now()
      modifies this`blocks, this`rs
      ensures Valid() && Regions() && |rs| == |old(rs)|
      ensures IsRun(longer) && longer.moments[0] == run.moments[0] && longer.moments[|longer.steps|] == Now()
    {
      longer := run;
      RootIsUsed(Now(), slot);
      RootIsUsed(Now(), from);
      var x, v := roots[slot], roots[from];
      if 0 <= i < |blocks[x].ptrs| {
        StoreRs(x, i, v);
        longer := RunPlus(run, Writes(x, i, v), Now());
      }
    }

    /** A block is allocated and a root slot set to it. */
    method AllocateInto(rid: int, size: int, pointers: nat, slot: int, addr: int, ghost run: Run)
      returns (ghost longer: Run)
      requires Valid() && Regions() && |rs| == |top| && 0 <= rid < |top| && addr >= 0 && addr !in blocks
      requires 0 <= slot < |roots| && IsRun(run) && run.moments[|run.steps|] == Now()
      modifies this`blocks, this`top, this`freel, this`chains, this`frees, this`home, this`roots
      ensures Valid() && Regions() && |rs| == |top|
      ensures IsRun(longer) && longer.moments[0] == run.moments[0] && longer.moments[|longer.steps|] == Now()
    {
      var x := AllocSolo(rid, rid, size, pointers, addr);
      longer := RunPlus(run, Allocates(rid, A.RoundUp(size), pointers, addr, reuse), Now());
      SetRoot(slot, x);
      longer := RunPlus(longer, SetsRoot(slot, x), Now());
    }

    /**
     An arbitrary program runs.  Whatever it allocates, loads, stores, clears and collects, the heap and
     its regions stay in order, the self-check never counts anything, and what happened is a run: so a
     block that stays reachable is never released.
     */
    method Execute(program: seq<Op>) returns (ghost run: Run)
      requires Valid() && Regions() && |rs| == |top| && epoch + 2 * |program| <= EPOCH_MAX
      modifies this
      ensures Valid() && Regions() && rsBad == old(rsBad)
      ensures IsRun(run) && run.moments[0] == old(Now()) && run.moments[|run.steps|] == Now()
      ensures forall i {:trigger run.moments[i]} | 0 <= i < |run.moments| ::
                InOrder(run.moments[i]) && run.moments[i].bad == old(rsBad)
    {
      run := Run([Now()], []);
      for k := 0 to |program|
        invariant Valid() && Regions() && |rs| == |top| && epoch + 2 * (|program| - k) <= EPOCH_MAX
        invariant IsRun(run) && run.moments[0] == old(Now()) && run.moments[|run.steps|] == Now()
      {
        run := Perform(program[k], run);
      }
      forall i | 0 <= i < |run.moments| ensures InOrder(run.moments[i]) && run.moments[i].bad == old(rsBad) {
        RunStaysInOrder(run, i);
      }
    }

    // ---------------------------------------------------------------- a block in a foreign arena

    /**
     A block of another region is handed to arena `to`, and that region is swept.  The block is kept
     exactly if the region's own roots or its in-edge set led to it through the region's blocks before;
     so the sweep frees nothing the program can reach exactly if that is so or nothing reaches the block.
     */
    method PromoteThenSweep(x: int, to: int, own: seq<int>, ghost k: int, ghost i: int)
      requires Valid() && Regions() && 0 <= k < |chains| && 0 <= i < |chains[k]| && chains[k][i] == x
      requires 0 <= to < |top| && to < |rs| && Covers(State(), to, own, roots) && epoch + 2 <= EPOCH_MAX
      modifies this`blocks, this`top, this`freel, this`stack, this`epoch, this`rsBad
      modifies this`chains, this`frees, this`home
      ensures Valid()
      ensures IsUsed(State(), x) <==> Reach(old(blocks), Within(to), Seeds(rs, to, own), x)
      ensures (forall y | Reachable(old(Now()), y) :: IsUsed(State(), y)) <==>
              (Reachable(old(Now()), x) ==> Reach(old(blocks), Within(to), Seeds(rs, to, own), x))
    {
      ghost var a := Now();
      Promote(x, to, k, i);
      ghost var m := State();
      PromotedMeetsBlocks(a, m, to, own);
      ghost var d, visited, marks;
      var marked, freed, bytes;
      marked, freed, bytes, d, visited, marks := SweepLocal(to, own, false);
      PromotedFate(a, m, State(), x, to, own, marks, d, reuse);
    }
  }

  /** A heap of two regions with one block, in region 0, that a root names. */
  method RootedBlock(addr: int) returns (heap: RegionHeap, x: int)
    requires addr >= 0
    ensures fresh(heap) && heap.Valid() && heap.Regions() && heap.epoch == 0 && heap.roots == [x]
    ensures |heap.top| == |heap.rs| == |heap.chains| == 2 && heap.rs[1] == [] && heap.chains[0] == [x] && x >= 0
    ensures x in heap.blocks && heap.blocks[x].rid == 0 && IsUsed(heap.State(), x)
  {
    heap := new RegionHeap(2, 1, false);
    x := heap.AllocSolo(0, 0, 8, 0, addr);
    heap.SetRoot(0, x);
  }

  /**
   That block is handed to the arena of region 1.  The next sweep of region 1, where no root and no
   in-edge leads, frees it: the root is left with a pointer to freed memory.
   */
  method PromotedBlockIsLost(addr: int) returns (heap: RegionHeap, x: int, ghost before: Moment)
    requires addr >= 0
    ensures heap.Valid() && InOrder(before) && Reachable(before, x) && IsUsed(before.m, x)
    ensures heap.roots == before.roots == [x] && !IsUsed(heap.State(), x)
  {
    heap, x := RootedBlock(addr);
    before := heap.Now();
    SeedReached(before.m.blocks, Everywhere, RootSet(before.roots), x);
    NothingReached(before.m.blocks, Within(1), Seeds(before.rs, 1, []), x);
    heap.PromoteThenSweep(x, 1, [], 0, 0);
  }

  lemma {:induction false} NothingReached(blocks: map<int, Block>, scope: Scope, seeds: set<int>, x: int)
    requires seeds == {}
    ensures !Reach(blocks, scope, seeds, x)
  {
    if Reach(blocks, scope, seeds, x) {
      ClosedHoldsReached(blocks, scope, seeds, {}, x);
    }
  }

  // ---------------------------------------------------------------- what sweeps leave

  /**
   Of chain `k` exactly the blocks `d` are gone, the rest is in order, and whatever can be reached
   from the roots is still in use with the same contents.
   */
  ghost predicate Collected(m: Mem, w: Mem, k: int, d: set<int>, roots: set<int>)
    requires 0 <= k < |m.chains|
  {
    && w.chains == m.chains[k := Without(m.chains[k], d)]
    && (forall x {:trigger Gone(m, w, x)} | x in d :: Gone(m, w, x))
    && forall x {:trigger Survives(m, w, x)} | Reach(m.blocks, Everywhere, roots, x) :: Survives(m, w, x)
  }

  /** Still in use, in the same arena, with the same contents. */
  ghost predicate Survives(m: Mem, w: Mem, x: int) {
    && x in m.home && x in m.blocks && m.home[x].Used? && x in w.home && w.home[x] == m.home[x] && x in w.blocks
    && w.blocks[x].cap == m.blocks[x].cap && w.blocks[x].rid == m.blocks[x].rid && w.blocks[x].ptrs == m.blocks[x].ptrs
  }

  /** A sweep as a step: nothing reachable is lost, and exactly what was not marked is collected. */
  lemma {:induction false} SweepEnds(a: Moment, b: Moment, s: Step)
    requires InOrder(a) && s.Sweeps? && SweepSees(a, s)
    requires Inv(a.m.(blocks := s.marked)) && RegionsKnown(a.m.(blocks := s.marked))
    requires b.m == SweptFrom(a.m.(blocks := s.marked), s.rid, 0, s.d, s.reuse) && b.rs == a.rs && b.roots == a.roots
    requires b.bad == a.bad + if s.check then |Overlooked(a.m.blocks, s.visited, s.rid, s.d)| else 0
    ensures Stepped(a, b, s) && InOrder(b) && b.bad == a.bad
    ensures Collected(a.m, b.m, s.rid, Unmarked(a.m, s.rid, s.d), RootSet(a.roots))
  {
    SweepIsSafe(a, b, s);
    SweepCollects(a, b, s);
  }

  lemma {:induction false} SweepCollects(a: Moment, b: Moment, s: Step)
    requires InOrder(a) && Stepped(a, b, s) && s.Sweeps?
    ensures Collected(a.m, b.m, s.rid, Unmarked(a.m, s.rid, s.d), RootSet(a.roots))
  {
    var u := a.m.(blocks := s.marked);
    RemarkedLinks(a.m, s.marked);
    RemarkedKeepsRegions(a.m, u, a.rs, a.roots);
    RemarkedReach(a.m.blocks, s.marked, Within(s.rid), Seeds(a.rs, s.rid, s.own), s.d);
    SweptWhole(u, s.rid, s.d, s.reuse);
    SweptFromMarked(a.m, u, b.m, s.rid, s.d);
    forall x | Reachable(a, x) ensures Survives(a.m, b.m, x) {
      SameReach(a.m.blocks, s.marked, Everywhere, RootSet(a.roots), x);
      SweepKeepsReachable(u, b.m, a.rs, a.roots, s.rid, s.own, s.d, x);
    }
  }

  lemma {:induction false} SweptFromMarked(m: Mem, u: Mem, w: Mem, k: int, d: set<int>)
    requires 0 <= k < |m.chains| && u == m.(blocks := u.blocks) && Remarked(m.blocks, u.blocks)
    requires Cleared(u, w, k, Unmarked(u, k, d))
    ensures Unmarked(u, k, d) == Unmarked(m, k, d)
    ensures w.chains == m.chains[k := Without(m.chains[k], Unmarked(m, k, d))]
    ensures forall x {:trigger Gone(m, w, x)} | x in Unmarked(m, k, d) :: Gone(m, w, x)
  {
    assert Unmarked(u, k, d) == Unmarked(m, k, d);
    forall x | x in Unmarked(m, k, d) ensures Gone(m, w, x) {
      assert Gone(u, w, x);
    }
  }

  lemma {:induction false} CollectedFromRoots(m: Mem, u: Mem, w: Mem, k: int, roots: set<int>, d: set<int>)
    requires 0 <= k < |m.chains| && u == m.(blocks := u.blocks) && Remarked(m.blocks, u.blocks)
    requires IsReached(m.blocks, Everywhere, roots, d) && Cleared(u, w, k, Unmarked(u, k, d))
    requires forall x | Reach(m.blocks, Everywhere, roots, x) :: x in m.blocks && IsUsed(m, x)
    ensures Collected(m, w, k, Unmarked(m, k, d), roots)
  {
    SweptFromMarked(m, u, w, k, d);
    forall x | Reach(m.blocks, Everywhere, roots, x) ensures Survives(m, w, x) {
      assert x in d && x !in Unmarked(u, k, d) && KeptBlock(u, w, x);
    }
  }

  /** What becomes of a block `x` that was moved to arena `to` and of all others when `to` is swept. */
  lemma {:induction false} PromotedFate(a: Moment, m: Mem, w: Mem, x: int, to: int, own: seq<int>,
          marks: map<int, Block>, d: set<int>, reuse: bool)
    requires InOrder(a) && 0 <= to < |a.rs| && Covers(a.m, to, own, a.roots) && IsUsed(a.m, x)
    requires Inv(m) && |m.chains| == |a.m.chains| && m.home == a.m.home[x := Used(to)]
    requires SameBlocks(a.m.blocks, m.blocks)
    requires Remarked(m.blocks, marks) && Inv(m.(blocks := marks)) && RegionsKnown(m.(blocks := marks))
    requires w == SweptFrom(m.(blocks := marks), to, 0, d, reuse)
    requires IsReached(m.blocks, Within(to), Seeds(a.rs, to, own), d)
    ensures var found := Reach(a.m.blocks, Within(to), Seeds(a.rs, to, own), x);
            && (IsUsed(w, x) <==> found)
            && ((forall y | Reachable(a, y) :: IsUsed(w, y)) <==> (Reachable(a, x) ==> found))
  {
    var u := m.(blocks := marks);
    SameGraphReached(m.blocks, a.m.blocks, Within(to), Seeds(a.rs, to, own), d);
    SweptWhole(u, to, d, reuse);
    assert HomeOk(u, x);
    assert x in d ==> KeptBlock(u, w, x);
    forall y | Reachable(a, y) && y != x ensures IsUsed(w, y) {
      OthersKept(a, u, x, to, own, d, y);
      assert KeptBlock(u, w, y);
    }
  }

  lemma {:induction false} SameGraphReached(b: map<int, Block>, c: map<int, Block>, scope: Scope, seeds: set<int>,
          d: set<int>)
    requires SameGraph(b, c) && IsReached(b, scope, seeds, d)
    ensures IsReached(c, scope, seeds, d)
  {
    forall x ensures x in d <==> Reach(c, scope, seeds, x) {
      SameReach(b, c, scope, seeds, x);
    }
  }

  /** The marks of the sweep after a promotion meet blocks only. */
  lemma {:induction false} PromotedMeetsBlocks(a: Moment, m: Mem, to: int, own: seq<int>)
    requires InOrder(a) && 0 <= to < |a.rs| && Covers(a.m, to, own, a.roots)
    requires SameBlocks(a.m.blocks, m.blocks)
    ensures forall x | Reach(m.blocks, Within(to), Seeds(a.rs, to, own), x) :: x in m.blocks
  {
    LocalMarkMeetsBlocks(a, to, own);
    forall x | Reach(m.blocks, Within(to), Seeds(a.rs, to, own), x) ensures x in m.blocks {
      SameReach(m.blocks, a.m.blocks, Within(to), Seeds(a.rs, to, own), x);
    }
  }

  lemma {:induction false} OthersKept(a: Moment, u: Mem, x: int, to: int, own: seq<int>, d: set<int>, y: int)
    requires InOrder(a) && 0 <= to < |a.rs| && Covers(a.m, to, own, a.roots) && Reachable(a, y) && y != x
    requires Inv(u) && |u.chains| == |a.m.chains| && u.home == a.m.home[x := Used(to)]
    requires IsReached(a.m.blocks, Within(to), Seeds(a.rs, to, own), d)
    ensures y in u.home && u.home[y].Used? && y !in Unmarked(u, to, d)
  {
    ReachableIsUsed(a.m, a.rs, a.roots, y);
    if y in u.chains[to] {
      InOwnChain(u, to, y);
      assert BlockOk(a.m, a.rs, y);
      LocalMarkCovers(a.m, a.rs, a.roots, to, own, d, y);
    }
  }

  // ---------------------------------------------------------------- the sweep's loop

  ghost function Cursor(m: Mem, k: int, i: int): Place
    requires 0 <= k < |m.chains| && 0 <= i <= |m.chains[k]|
  {
    if i == 0 then TopOf(k) else PrevOf(m.chains[k][i - 1])
  }

  /** The place after the first `i` blocks holds the next one. */
  lemma {:induction false} CursorLoads(m: Mem, k: int, i: int)
    requires Inv(m) && 0 <= k < |m.chains| && 0 <= i <= |m.chains[k]|
    ensures PlaceOk(m, Cursor(m, k, i)) && Load(m, Cursor(m, k, i)) == At(m.chains[k], i)
    ensures Load(m, Cursor(m, k, i)) >= 0 <==> i < |m.chains[k]|
  {
    assert ChainOk(m, k);
    assert i > 0 ==> LinkOk(m, k, i - 1);
    assert i < |m.chains[k]| ==> LinkOk(m, k, i);
  }

  /** On chain `k` the blocks with mark `e` are those in `d`. */
  ghost predicate ChainMarked(m: Mem, k: int, d: set<int>, e: int)
    requires 0 <= k < |m.chains|
  {
    forall x | x in m.chains[k] :: x in m.blocks && (m.blocks[x].mark == e <==> x in d)
  }

  lemma {:induction false} ChainIsMarked(m: Mem, k: int, d: set<int>, e: int)
    requires Inv(m) && 0 <= k < |m.chains| && MarkedExactly(m.blocks, d, e)
    ensures ChainMarked(m, k, d, e)
  {
    forall x | x in m.chains[k] ensures x in m.blocks {
      InOwnChain(m, k, x);
    }
  }

  /** The sweep of `m` has come to the `i`-th of the blocks left: what remains to do gives what is to come out. */
  ghost predicate Sweeping(m: Mem, u: Mem, k: int, i: int, d: set<int>, e: int, reuse: bool)
    requires Inv(m) && RegionsKnown(m) && 0 <= k < |m.chains|
  {
    && Inv(u) && RegionsKnown(u) && |u.top| == |m.top| && 0 <= i <= |u.chains[k]| && ChainMarked(u, k, d, e)
    && SweptFrom(u, k, i, d, reuse) == SweptFrom(m, k, 0, d, reuse)
  }

  /** A marked block stays, and its back pointer names the cursor already. */
  lemma {:induction false} SweepKeeps(m: Mem, u: Mem, k: int, i: int, d: set<int>, e: int, reuse: bool)
    requires Inv(m) && RegionsKnown(m) && 0 <= k < |m.chains|
    requires Sweeping(m, u, k, i, d, e, reuse) && i < |u.chains[k]|
    ensures var x := u.chains[k][i];
            && x in u.blocks && u.blocks[x].self == Cursor(u, k, i)
            && (u.blocks[x].mark == e ==> Sweeping(m, u, k, i + 1, d, e, reuse) && Cursor(u, k, i + 1) == PrevOf(x))
  {
    assert ChainOk(u, k) && LinkOk(u, k, i);
    assert u.chains[k][i] in u.chains[k];
  }

  /** Any other block is dropped, and the cursor stays. */
  lemma {:induction false} SweepDrops(m: Mem, u: Mem, k: int, i: int, d: set<int>, e: int, reuse: bool)
    requires Inv(m) && RegionsKnown(m) && 0 <= k < |m.chains|
    requires Sweeping(m, u, k, i, d, e, reuse) && i < |u.chains[k]|
    requires u.chains[k][i] in u.blocks && u.blocks[u.chains[k][i]].mark != e
    ensures var w := Dropped(u, k, i, reuse);
            && |w.chains| == |u.chains| && |w.chains[k]| == |u.chains[k]| - 1
            && Sweeping(m, w, k, i, d, e, reuse) && Cursor(w, k, i) == Cursor(u, k, i)
  {
    assert u.chains[k][i] in u.chains[k];
    DroppedInOrder(u, k, i, reuse);
    DroppedChainMarked(u, k, i, reuse, d, e);
  }

  lemma {:induction false} SweepDone(m: Mem, u: Mem, k: int, i: int, d: set<int>, e: int, reuse: bool)
    requires Inv(m) && RegionsKnown(m) && 0 <= k < |m.chains|
    requires Sweeping(m, u, k, i, d, e, reuse) && At(u.chains[k], i) < 0
    ensures u == SweptFrom(m, k, 0, d, reuse)
  {
    CursorLoads(u, k, i);
  }

  lemma {:induction false} DroppedChainMarked(m: Mem, k: int, i: int, reuse: bool, d: set<int>, e: int)
    requires Inv(m) && RegionsKnown(m) && 0 <= k < |m.chains| && 0 <= i < |m.chains[k]| && ChainMarked(m, k, d, e)
    ensures |Dropped(m, k, i, reuse).chains| == |m.chains| && ChainMarked(Dropped(m, k, i, reuse), k, d, e)
  {
    var w, c := Dropped(m, k, i, reuse), m.chains[k];
    DroppedInOrder(m, k, i, reuse);
    assert ChainOk(m, k);
    CutChain(c, i);
    forall x | x in w.chains[k] ensures x in w.blocks && (w.blocks[x].mark == e <==> x in d) {
      DroppedBlock(m, k, i, reuse, x);
    }
  }

  lemma {:induction false} CutChain(c: seq<int>, i: int)
    requires NoDup(c) && 0 <= i < |c|
    ensures forall x | x in c[..i] + c[i + 1..] :: x in c && x != c[i]
  {
  }

  lemma {:induction false} DroppedKeepsMarks(m: Mem, k: int, i: int, reuse: bool, epoch: int)
    requires Inv(m) && RegionsKnown(m) && MarksPast(m.blocks, epoch) && 0 <= k < |m.chains| && 0 <= i < |m.chains[k]|
    ensures MarksPast(Dropped(m, k, i, reuse).blocks, epoch)
  {
    var w := Dropped(m, k, i, reuse);
    forall x | x in w.blocks ensures 0 <= w.blocks[x].mark <= epoch && 0 <= w.blocks[x].vmark <= epoch {
      DroppedBlock(m, k, i, reuse, x);
    }
  }

  /** The sweep's count is the number of blocks that went. */
  lemma {:induction false} SweptCount(m: Mem, k: int, d: set<int>, reuse: bool)
    requires Inv(m) && RegionsKnown(m) && 0 <= k < |m.chains|
    ensures var w := SweptFrom(m, k, 0, d, reuse);
            |w.chains| == |m.chains| && |m.chains[k]| - |w.chains[k]| == |Unmarked(m, k, d)|
  {
    SweptWhole(m, k, d, reuse);
    assert ChainOk(m, k);
    WithoutLength(m.chains[k], Unmarked(m, k, d));
    assert Unmarked(m, k, d) == set x | x in m.chains[k] && x in Unmarked(m, k, d);
  }

  lemma {:induction false} SameUnmarked(m: Mem, u: Mem, k: int, d: set<int>)
    requires 0 <= k < |m.chains| && u.chains == m.chains
    ensures Unmarked(u, k, d) == Unmarked(m, k, d)
  {
  }

  lemma {:induction false} WithoutLength(c: seq<int>, d: set<int>)
    requires NoDup(c)
    ensures |Without(c, d)| == |c| - |set x | x in c && x in d|
  {
    if c != [] {
      TailOfChain(c);
      WithoutLength(c[1..], d);
      var rest := set x | x in c[1..] && x in d;
      assert (set x | x in c && x in d) == if c[0] in d then rest + {c[0]} else rest;
    }
  }

  lemma {:induction false} OneCleared(m: Mem, k: int, i: int)
    requires Inv(m) && RegionsKnown(m) && 0 <= k < |m.chains| && 0 <= i < |m.chains[k]|
    ensures var w, x := Dropped(m, k, i, false), m.chains[k][i];
            && x !in w.blocks
            && forall y {:trigger KeptBlock(m, w, y)} | y in m.home && y != x :: KeptBlock(m, w, y)
  {
    assert ChainOk(m, k) && LinkOk(m, k, i);
    ClearedNothing(m, k);
    ClearedMore(m, m, k, {}, i, false);
  }

  /** The head of a free list is a block. */
  lemma {:induction false} FreeListHead(m: Mem, rid: int)
    requires Inv(m) && 0 <= rid < |m.freel|
    ensures m.freel[rid] >= 0 ==> m.freel[rid] in m.blocks
  {
    if m.freel[rid] >= 0 {
      RecycledKeepsInv(m, rid);
    }
  }

  /** A chain has ended where the next block would have no address. */
  lemma {:induction false} ChainEnds(m: Mem, k: int, i: int)
    requires Inv(m) && 0 <= k < |m.chains| && 0 <= i <= |m.chains[k]|
    ensures At(m.chains[k], i) < 0 ==> i == |m.chains[k]| && m.chains[k][i..] == []
  {
    CursorLoads(m, k, i);
  }

  function SumCaps(blocks: map<int, Block>, chain: seq<int>): int {
    if chain == [] then 0 else (if chain[0] in blocks then blocks[chain[0]].cap else 0) + SumCaps(blocks, chain[1..])
  }

  // ---------------------------------------------------------------- marks

  ghost predicate MarksPast(blocks: map<int, Block>, epoch: int) {
    0 <= epoch <= EPOCH_MAX && forall x | x in blocks :: 0 <= blocks[x].mark <= epoch && 0 <= blocks[x].vmark <= epoch
  }

  /** The blocks of `d` carry mark `e`, nothing else changed. */
  ghost predicate Marked(b: map<int, Block>, c: map<int, Block>, d: set<int>, e: int) {
    c.Keys == b.Keys && d <= b.Keys
    && forall x | x in b :: c[x] == if x in d then b[x].(mark := e) else b[x]
  }

  /** Mark `e` is on the blocks of `d` and on no other. */
  ghost predicate MarkedExactly(blocks: map<int, Block>, d: set<int>, e: int) {
    forall x | x in blocks :: blocks[x].mark == e <==> x in d
  }

  /** What the mark loop sees at block `o`. */
  lemma {:induction false} MarkedAt(b: map<int, Block>, c: map<int, Block>, scope: Scope, d: set<int>, o: int, e: int)
    requires Marked(b, c, d, e) && o in b && b[o].mark != e
    ensures o in c && (c[o].mark == e <==> o in d) && Pushes(c, scope, o) == Pushes(b, scope, o)
    ensures Marked(b, c[o := c[o].(mark := e)], d + {o}, e)
  {
  }

  lemma {:induction false} LastWaits(stack: seq<int>)
    requires stack != []
    ensures stack[|stack| - 1] in stack
  {
  }

  ghost predicate Visited(b: map<int, Block>, c: map<int, Block>, d: set<int>, ve: int) {
    c.Keys == b.Keys && d <= b.Keys
    && forall x | x in b :: c[x] == if x in d then b[x].(vmark := ve) else b[x]
  }

  lemma {:induction false} VisitedPlus(b: map<int, Block>, c: map<int, Block>, v: set<int>, o: int, ve: int)
    requires Visited(b, c, v, ve) && o in b
    ensures o in c && Visited(b, c[o := c[o].(vmark := ve)], v + {o}, ve)
    ensures b[o].vmark != ve ==> (c[o].vmark == ve <==> o in v)
    ensures c[o].rid == b[o].rid && c[o].mark == b[o].mark && c[o].ptrs == b[o].ptrs
  {
  }

  /** The blocks of a region among `v` that lack mark `e`. */
  ghost function Missed(blocks: map<int, Block>, v: set<int>, rid: int, e: int): set<int> {
    set x | x in v && x in blocks && blocks[x].rid == rid && blocks[x].mark != e
  }

  lemma {:induction false} MissedPlus(blocks: map<int, Block>, v: set<int>, o: int, rid: int, e: int)
    requires o in blocks && o !in v
    ensures |Missed(blocks, v + {o}, rid, e)| ==
            |Missed(blocks, v, rid, e)| + if blocks[o].rid == rid && blocks[o].mark != e then 1 else 0
  {
    if blocks[o].rid == rid && blocks[o].mark != e {
      assert Missed(blocks, v + {o}, rid, e) == Missed(blocks, v, rid, e) + {o};
    } else {
      assert Missed(blocks, v + {o}, rid, e) == Missed(blocks, v, rid, e);
    }
  }

  lemma {:induction false} MissedIsOverlooked(blocks: map<int, Block>, v: set<int>, rid: int, e: int, d: set<int>)
    requires MarkedExactly(blocks, d, e)
    ensures Missed(blocks, v, rid, e) == Overlooked(blocks, v, rid, d)
  {
    var o := Overlooked(blocks, v, rid, d);
    forall x ensures x in Missed(blocks, v, rid, e) <==> x in o {
    }
  }

  lemma {:induction false} SeedsPushed(rs: seq<seq<int>>, rid: int, own: seq<int>, stack: seq<int>)
    requires 0 <= rid < |rs| && stack == NonNull(own) + rs[rid]
    ensures Members(stack) == Seeds(rs, rid, own)
  {
    forall x ensures x in Members(stack) <==> x in Seeds(rs, rid, own) {
      NonNullHas(own, x);
    }
  }

  lemma {:induction false} RootsPushed(roots: seq<int>, stack: seq<int>)
    requires stack == NonNull(roots)
    ensures Members(stack) == RootSet(roots)
  {
    forall x ensures x in Members(stack) <==> x in RootSet(roots) {
      NonNullHas(roots, x);
    }
  }

  lemma {:induction false} MarkedIsRemarked(b: map<int, Block>, c: map<int, Block>, d: set<int>, e: int)
    requires Marked(b, c, d, e)
    ensures Remarked(b, c)
  {
  }

  /** Marks of the new epoch leave everything else in order. */
  lemma {:induction false} MarkedInOrder(m: Mem, c: map<int, Block>, d: set<int>, e: int)
    requires Inv(m) && RegionsKnown(m) && MarksPast(m.blocks, e) && Marked(m.blocks, c, d, e)
    requires forall x | x in m.blocks :: m.blocks[x].mark != e
    ensures Inv(m.(blocks := c)) && RegionsKnown(m.(blocks := c)) && MarksPast(c, e) && Remarked(m.blocks, c)
    ensures MarkedExactly(c, d, e)
  {
    RemarkedLinks(m, c);
  }

  lemma {:induction false} VisitedInOrder(m: Mem, c: map<int, Block>, d: set<int>, ve: int)
    requires Inv(m) && RegionsKnown(m) && MarksPast(m.blocks, ve) && Visited(m.blocks, c, d, ve)
    ensures Inv(m.(blocks := c)) && RegionsKnown(m.(blocks := c)) && MarksPast(c, ve) && Remarked(m.blocks, c)
    ensures forall f: set<int>, e: int | MarkedExactly(m.blocks, f, e) :: MarkedExactly(c, f, e)
  {
    RemarkedLinks(m, c);
  }

  /** What the self-check sees does not depend on the marks. */
  lemma {:induction false} RemarkedAlike(b: map<int, Block>, c: map<int, Block>, roots: set<int>)
    requires Remarked(b, c)
    ensures (forall x | Reach(b, Everywhere, roots, x) :: x in b) ==>
              forall x | Reach(c, Everywhere, roots, x) :: x in c
  {
    forall x ensures Reach(b, Everywhere, roots, x) <==> Reach(c, Everywhere, roots, x) {
      SameReach(b, c, Everywhere, roots, x);
    }
  }

  lemma {:induction false} RemarkedTwice(b0: map<int, Block>, b1: map<int, Block>, b2: map<int, Block>,
          roots: set<int>, rid: int, d: set<int>, v: set<int>)
    requires Remarked(b0, b1) && Remarked(b1, b2) && IsReached(b1, Everywhere, roots, v)
    ensures Remarked(b0, b2) && IsReached(b0, Everywhere, roots, v)
    ensures Overlooked(b1, v, rid, d) == Overlooked(b0, v, rid, d)
  {
    forall x ensures x in v <==> Reach(b0, Everywhere, roots, x) {
      SameReach(b0, b1, Everywhere, roots, x);
    }
    var o := Overlooked(b0, v, rid, d);
    forall x ensures x in Overlooked(b1, v, rid, d) <==> x in o {
    }
  }

  // ---------------------------------------------------------------- lemmas for the operations

  /** With the regions in order the marks of a sweep meet blocks only. */
  lemma {:induction false} LocalMarkMeetsBlocks(a: Moment, rid: int, own: seq<int>)
    requires InOrder(a) && 0 <= rid < |a.rs| && Covers(a.m, rid, own, a.roots)
    ensures forall x | Reach(a.m.blocks, Within(rid), Seeds(a.rs, rid, own), x) :: x in a.m.blocks
    ensures forall x | Reach(a.m.blocks, Everywhere, RootSet(a.roots), x) :: x in a.m.blocks
  {
    forall x | Reach(a.m.blocks, Within(rid), Seeds(a.rs, rid, own), x) ensures x in a.m.blocks {
      LocalMarkIsUsed(a.m, a.rs, a.roots, rid, own, x);
    }
    forall x | Reach(a.m.blocks, Everywhere, RootSet(a.roots), x) ensures x in a.m.blocks {
      ReachableIsUsed(a.m, a.rs, a.roots, x);
    }
  }

  lemma {:induction false} AllocatedMarks(m: Mem, a: int, rid: int, n: int, pointers: nat, addr: int, reuse: bool,
          epoch: int)
    requires CanTake(m, rid, addr) && 0 <= a < |m.top| && MarksPast(m.blocks, epoch)
    ensures MarksPast(Allocated(m, a, rid, n, pointers, addr, reuse).blocks, epoch)
  {
    TakenInOrder(m, rid, n, addr, reuse);
    var u, x := Taken(m, rid, n, addr, reuse), Spot(m, rid, n, addr, reuse);
    SetUpInOrder(u, x, rid, n, pointers);
    PushedInOrder(WithBlock(u, x, NewBlock(u.blocks[x], rid, n, pointers)), a, x);
  }

  /** The `i`-th block of chain `k` moved to the top of arena `to`. */
  ghost function Moved(m: Mem, k: int, i: int, to: int): Mem
    requires Inv(m) && 0 <= k < |m.chains| && 0 <= i < |m.chains[k]| && 0 <= to < |m.chains|
  {
    UnlinkedKeepsInv(m, k, i);
    InOwnChain(m, k, m.chains[k][i]);
    Pushed(Unlinked(m, k, i), to, m.chains[k][i])
  }

  lemma {:induction false} MovedInOrder(m: Mem, k: int, i: int, to: int, epoch: int)
    requires Inv(m) && RegionsKnown(m) && MarksPast(m.blocks, epoch)
    requires 0 <= k < |m.chains| && 0 <= i < |m.chains[k]| && 0 <= to < |m.chains|
    ensures var w, x := Moved(m, k, i, to), m.chains[k][i];
            && IsUsed(m, x) && x >= 0 && x in m.blocks && Inv(w) && RegionsKnown(w) && MarksPast(w.blocks, epoch)
            && w.home == m.home[x := Used(to)]
            && SameBlocks(m.blocks, w.blocks)
  {
    var x, v := m.chains[k][i], Unlinked(m, k, i);
    InOwnChain(m, k, x);
    assert ChainOk(m, k) && LinkOk(m, k, i);
    UnlinkedKeepsInv(m, k, i);
    UnlinkedKnown(m, k, i);
    forall y | y in m.blocks ensures y in v.blocks && SameBlock(m.blocks[y], v.blocks[y]) {
      UnlinkedSame(m, k, i, y);
    }
    PushedInOrder(v, to, x);
    SameBlocksMarks(m.blocks, v.blocks, epoch);
    SameBlocksMarks(v.blocks, Pushed(v, to, x).blocks, epoch);
  }

  lemma {:induction false} SameBlocksMarks(b: map<int, Block>, c: map<int, Block>, epoch: int)
    requires MarksPast(b, epoch) && SameBlocks(b, c)
    ensures MarksPast(c, epoch)
  {
  }

  lemma {:induction false} WrittenBlocks(m: Mem, x: int, i: int, v: int, epoch: int)
    requires Inv(m) && RegionsKnown(m) && MarksPast(m.blocks, epoch) && CanWrite(m, x, i, v)
    ensures var b := Written(m.blocks, x, i, v);
            Inv(m.(blocks := b)) && RegionsKnown(m.(blocks := b)) && MarksPast(b, epoch)
  {
    SameLinksKeepInv(m, m.(blocks := Written(m.blocks, x, i, v)));
  }

  /** A root names a block in use. */
  lemma {:induction false} RootIsUsed(a: Moment, slot: int)
    requires InOrder(a) && 0 <= slot < |a.roots|
    ensures a.roots[slot] >= 0 ==> IsUsed(a.m, a.roots[slot]) && a.roots[slot] in a.m.blocks
  {
    assert a.roots[slot] in a.roots;
  }

  /** So does a pointer in a block a root names. */
  lemma {:induction false} PointerIsUsed(a: Moment, slot: int, i: int)
    requires InOrder(a) && 0 <= slot < |a.roots| && a.roots[slot] >= 0 && a.roots[slot] in a.m.blocks
    requires 0 <= i < |a.m.blocks[a.roots[slot]].ptrs|
    ensures var v := a.m.blocks[a.roots[slot]].ptrs[i]; v >= 0 ==> IsUsed(a.m, v) && v in a.m.blocks
  {
    RootIsUsed(a, slot);
    var x := a.roots[slot];
    var v := a.m.blocks[x].ptrs[i];
    assert BlockOk(a.m, a.rs, x) && v in a.m.blocks[x].ptrs;
    assert v >= 0 ==> PointerOk(a.m, a.rs, a.m.blocks[x].rid, v);
  }

  /** A run and one more step. */
  lemma {:induction false} RunPlus(run: Run, s: Step, b: Moment) returns (longer: Run)
    requires IsRun(run) && SteppedFrom(run.moments[|run.steps|], b, s)
    ensures longer == Run(run.moments + [b], run.steps + [s]) && IsRun(longer)
    ensures longer.moments[0] == run.moments[0] && longer.moments[|longer.steps|] == b
  {
    longer := Run(run.moments + [b], run.steps + [s]);
    forall i | 0 <= i < |longer.steps| ensures SteppedFrom(longer.moments[i], longer.moments[i + 1], longer.steps[i]) {
      assert i < |run.steps| ==> longer.steps[i] == run.steps[i];
    }
  }
}
