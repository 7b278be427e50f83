/**
 Reachability between blocks, and what a mark stack computes: exactly what can be reached from the
 seeds, where a sweep of one region does not look into blocks of another.
 */
module Marking {
  import opened HeapState

  /** Whose pointers are followed: every block's, or those of one region's blocks. */
  datatype Scope = Everywhere | Within(rid: int)

  predicate Follows(blocks: map<int, Block>, scope: Scope, x: int) {
    x in blocks && (scope.Within? ==> blocks[x].rid == scope.rid)
  }

  predicate Edge(blocks: map<int, Block>, scope: Scope, x: int, y: int) {
    Follows(blocks, scope, x) && y >= 0 && y in blocks[x].ptrs
  }

  ghost predicate Path(blocks: map<int, Block>, scope: Scope, seeds: set<int>, p: seq<int>) {
    && p != [] && p[0] in seeds
    && forall i {:trigger p[i]} | 0 < i < |p| :: Edge(blocks, scope, p[i - 1], p[i])
  }

  ghost predicate Reach(blocks: map<int, Block>, scope: Scope, seeds: set<int>, x: int) {
    exists p :: Path(blocks, scope, seeds, p) && p[|p| - 1] == x
  }

  lemma {:induction false} SeedReached(blocks: map<int, Block>, scope: Scope, seeds: set<int>, x: int)
    requires x in seeds
    ensures Reach(blocks, scope, seeds, x)
  {
    assert Path(blocks, scope, seeds, [x]) && [x][|[x]| - 1] == x;
  }

  lemma {:induction false} StepReached(blocks: map<int, Block>, scope: Scope, seeds: set<int>, x: int, y: int)
    requires Reach(blocks, scope, seeds, x) && Edge(blocks, scope, x, y)
    ensures Reach(blocks, scope, seeds, y)
  {
    var p :| Path(blocks, scope, seeds, p) && p[|p| - 1] == x;
    var q := p + [y];
    forall i | 0 < i < |q| ensures Edge(blocks, scope, q[i - 1], q[i]) {
      assert i < |p| ==> q[i] == p[i] && q[i - 1] == p[i - 1];
    }
    assert Path(blocks, scope, seeds, q) && q[|q| - 1] == y;
  }

  /** A set that holds the seeds and is closed under the edges holds all that can be reached. */
  ghost predicate ClosedUnder(blocks: map<int, Block>, scope: Scope, d: set<int>) {
    forall x, y | x in d && Edge(blocks, scope, x, y) :: y in d
  }

  lemma {:induction false} ClosedHoldsPath(blocks: map<int, Block>, scope: Scope, seeds: set<int>, d: set<int>,
          p: seq<int>, i: nat)
    requires seeds <= d && ClosedUnder(blocks, scope, d) && Path(blocks, scope, seeds, p) && i < |p|
    ensures p[i] in d
  {
    if i > 0 {
      ClosedHoldsPath(blocks, scope, seeds, d, p, i - 1);
      assert Edge(blocks, scope, p[i - 1], p[i]);
    }
  }

  lemma {:induction false} ClosedHoldsReached(blocks: map<int, Block>, scope: Scope, seeds: set<int>, d: set<int>,
          x: int)
    requires seeds <= d && ClosedUnder(blocks, scope, d) && Reach(blocks, scope, seeds, x)
    ensures x in d
  {
    var p :| Path(blocks, scope, seeds, p) && p[|p| - 1] == x;
    ClosedHoldsPath(blocks, scope, seeds, d, p, |p| - 1);
  }

  /** Exactly the blocks that can be reached. */
  ghost predicate IsReached(blocks: map<int, Block>, scope: Scope, seeds: set<int>, d: set<int>) {
    forall x :: x in d <==> Reach(blocks, scope, seeds, x)
  }

  /** Two heaps with the same regions and pointers, whatever the marks. */
  ghost predicate SameGraph(b: map<int, Block>, c: map<int, Block>) {
    b.Keys == c.Keys && forall x | x in b :: c[x].rid == b[x].rid && c[x].ptrs == b[x].ptrs
  }

  lemma {:induction false} SameReach(b: map<int, Block>, c: map<int, Block>, scope: Scope, seeds: set<int>, x: int)
    requires SameGraph(b, c)
    ensures Reach(b, scope, seeds, x) <==> Reach(c, scope, seeds, x)
  {
    if Reach(b, scope, seeds, x) {
      var p :| Path(b, scope, seeds, p) && p[|p| - 1] == x;
      assert Path(c, scope, seeds, p);
    }
    if Reach(c, scope, seeds, x) {
      var p :| Path(c, scope, seeds, p) && p[|p| - 1] == x;
      assert Path(b, scope, seeds, p);
    }
  }

  // ---------------------------------------------------------------- the state of a mark loop

  function Members(s: seq<int>): set<int> {
    set x | x in s
  }

  /**
   What holds whenever the loop looks at its stack: what is done or waiting can be reached, holds
   the seeds, and what is done has all its pointers done or waiting.
   */
  ghost predicate Progress(blocks: map<int, Block>, scope: Scope, seeds: set<int>, done: set<int>, stack: seq<int>) {
    && (forall x | x in done :: Reach(blocks, scope, seeds, x))
    && (forall x | x in stack :: Reach(blocks, scope, seeds, x))
    && (forall x | x in seeds :: x in done || x in stack)
    && (forall x, y | x in done && Edge(blocks, scope, x, y) :: y in done || y in stack)
  }

  lemma {:induction false} ProgressStart(blocks: map<int, Block>, scope: Scope, stack: seq<int>)
    ensures Progress(blocks, scope, Members(stack), {}, stack)
  {
    forall x | x in stack ensures Reach(blocks, scope, Members(stack), x) {
      SeedReached(blocks, scope, Members(stack), x);
    }
  }

  lemma {:induction false} ProgressDone(blocks: map<int, Block>, scope: Scope, seeds: set<int>, done: set<int>)
    requires Progress(blocks, scope, seeds, done, [])
    ensures IsReached(blocks, scope, seeds, done)
  {
    assert forall x | x in seeds :: x in done || x in [];
    assert ClosedUnder(blocks, scope, done) by {
      forall x, y | x in done && Edge(blocks, scope, x, y) ensures y in done {
        assert y in done || y in [];
      }
    }
    forall x ensures x in done <==> Reach(blocks, scope, seeds, x) {
      if Reach(blocks, scope, seeds, x) {
        ClosedHoldsReached(blocks, scope, seeds, done, x);
      }
    }
  }

  /** A block that is done already is dropped. */
  lemma {:induction false} ProgressPop(blocks: map<int, Block>, scope: Scope, seeds: set<int>, done: set<int>,
          stack: seq<int>)
    requires Progress(blocks, scope, seeds, done, stack) && stack != [] && stack[|stack| - 1] in done
    ensures Progress(blocks, scope, seeds, done, stack[..|stack| - 1])
  {
    var o := stack[|stack| - 1];
    forall x | x in stack ensures x in done || x in stack[..|stack| - 1] {
      assert stack == stack[..|stack| - 1] + [o];
    }
  }

  function NonNull(ptrs: seq<int>): seq<int> {
    if ptrs == [] then []
    else NonNull(ptrs[..|ptrs| - 1]) + if ptrs[|ptrs| - 1] >= 0 then [ptrs[|ptrs| - 1]] else []
  }

  lemma {:induction false} NonNullHas(ptrs: seq<int>, y: int)
    ensures y in NonNull(ptrs) <==> y >= 0 && y in ptrs
  {
    if ptrs != [] {
      NonNullHas(ptrs[..|ptrs| - 1], y);
      assert ptrs == ptrs[..|ptrs| - 1] + [ptrs[|ptrs| - 1]];
    }
  }

  /** What the loop pushes for block `o`. */
  function Pushes(blocks: map<int, Block>, scope: Scope, o: int): seq<int>
    requires o in blocks
  {
    if Follows(blocks, scope, o) then NonNull(blocks[o].ptrs) else []
  }

  lemma {:induction false} PushesAreEdges(blocks: map<int, Block>, scope: Scope, o: int, y: int)
    requires o in blocks
    ensures y in Pushes(blocks, scope, o) <==> Edge(blocks, scope, o, y)
  {
    NonNullHas(blocks[o].ptrs, y);
  }

  /** A block is marked and its pointers pushed. */
  lemma {:induction false} ProgressMark(blocks: map<int, Block>, scope: Scope, seeds: set<int>, done: set<int>,
          stack: seq<int>)
    requires Progress(blocks, scope, seeds, done, stack) && stack != [] && stack[|stack| - 1] in blocks
    ensures var o := stack[|stack| - 1];
            Progress(blocks, scope, seeds, done + {o}, stack[..|stack| - 1] + Pushes(blocks, scope, o))
  {
    var o, rest := stack[|stack| - 1], stack[..|stack| - 1];
    var d, s := done + {o}, rest + Pushes(blocks, scope, o);
    assert stack == rest + [o];
    forall x | x in s ensures Reach(blocks, scope, seeds, x) {
      if x !in rest {
        PushesAreEdges(blocks, scope, o, x);
        StepReached(blocks, scope, seeds, o, x);
      }
    }
    forall x, y | x in d && Edge(blocks, scope, x, y) ensures y in d || y in s {
      if x == o {
        PushesAreEdges(blocks, scope, o, y);
      }
    }
  }
}
