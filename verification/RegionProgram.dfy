/**
 The little region language of the checker scripts: cells placed in a chain of nested
 regions, pointer stores, pointer copies, region exits and branches unknown at compile time.

 Regions are numbered along the chain, outermost first, so a region's depth is its number.
 The scripts fix three regions; here their number is a parameter.
 */
module RegionProgram {
  import opened Wrappers

  type Cell = nat
  type Region = nat

  /** `layout[c]` is the region that holds cell `c`. */
  type Layout = seq<Region>

  datatype Op =
    | Store(a: Cell, b: Cell)                  // put a pointer to cell b into cell a
    | Copy(a: Cell, c: Cell)                   // put the content of cell c into cell a
    | Exit(r: Region)                          // release region r and everything nested in it
    | Ite(thn: seq<Op>, els: seq<Op>)

  type Pointers = seq<Option<Cell>>

  // ---------------------------------------------------------------- regions

  function Ancestors(r: Region): set<Region> {
    if r == 0 then {0} else {r} + Ancestors(r - 1)
  }

  function Subtree(regions: nat, r: Region): set<Region> {
    set s | 0 <= s < regions && r in Ancestors(s)
  }

  predicate Alive(r: Region, dead: set<Region>) {
    forall s | s in Ancestors(r) :: s !in dead
  }

  /** On a chain the ancestors of a region are the regions that are not deeper. */
  lemma {:induction false} AncestorsAreShallower(r: Region, s: Region)
    ensures s in Ancestors(r) <==> s <= r
  {
    if r != 0 {
      AncestorsAreShallower(r - 1, s);
    }
  }

  /** A live region's ancestors are alive: the deeper region is the one that dies first. */
  lemma {:induction false} ShallowerOutlives(deep: Region, shallow: Region, dead: set<Region>)
    requires shallow <= deep
    requires Alive(deep, dead)
    ensures Alive(shallow, dead)
  {
    forall s | s in Ancestors(shallow)
      ensures s !in dead
    {
      AncestorsAreShallower(shallow, s);
      AncestorsAreShallower(deep, s);
    }
  }

  /** Releasing region `r` kills exactly the regions at least as deep, among those still alive. */
  lemma {:induction false} ExitKillsDeeper(regions: nat, r: Region, q: Region, dead: set<Region>)
    requires q < regions
    ensures Alive(q, dead + Subtree(regions, r)) <==> Alive(q, dead) && q < r
  {
    AncestorsAreShallower(q, q);
    if r <= q {
      AncestorsAreShallower(q, r);
      assert q in Subtree(regions, r);
    } else {
      forall s | s in Ancestors(q)
        ensures s !in Subtree(regions, r)
      {
        AncestorsAreShallower(q, s);
        AncestorsAreShallower(s, r);
      }
    }
  }

  // ---------------------------------------------------------------- program shape

  /** Cells and regions that a program names exist. */
  predicate WellFormed(cells: nat, regions: nat, ops: seq<Op>) {
    ops == [] || (WellFormedOp(cells, regions, ops[0]) && WellFormed(cells, regions, ops[1..]))
  }

  predicate WellFormedOp(cells: nat, regions: nat, op: Op) {
    match op
    case Store(a, b) => a < cells && b < cells
    case Copy(a, c) => a < cells && c < cells
    case Exit(r) => r < regions
    case Ite(t, e) => WellFormed(cells, regions, t) && WellFormed(cells, regions, e)
  }

  predicate LayoutOk(regions: nat, layout: Layout) {
    forall c | 0 <= c < |layout| :: layout[c] < regions
  }

  lemma {:induction false} WellFormedConcat(cells: nat, regions: nat, xs: seq<Op>, ys: seq<Op>)
    ensures WellFormed(cells, regions, xs + ys) <==> WellFormed(cells, regions, xs) && WellFormed(cells, regions, ys)
  {
    if xs == [] {
      assert xs + ys == ys;
    } else {
      WellFormedConcat(cells, regions, xs[1..], ys);
      assert (xs + ys)[1..] == xs[1..] + ys;
    }
  }

  /** The number of nodes of a program; `Run` splices branches into the continuation, and this shrinks. */
  function Size(ops: seq<Op>): nat {
    if ops == [] then 0 else SizeOp(ops[0]) + Size(ops[1..])
  }

  function SizeOp(op: Op): (n: nat)
    ensures n >= 1
  {
    match op
    case Ite(t, e) => 1 + Size(t) + Size(e)
    case _ => 1
  }

  lemma {:induction false} SizeConcat(xs: seq<Op>, ys: seq<Op>)
    ensures Size(xs + ys) == Size(xs) + Size(ys)
  {
    if xs == [] {
      assert xs + ys == ys;
    } else {
      SizeConcat(xs[1..], ys);
      assert (xs + ys)[1..] == xs[1..] + ys;
    }
  }

  /** Either branch, spliced in front of the rest, is a smaller well-formed program. */
  lemma {:induction false} BranchSplices(cells: nat, regions: nat, ops: seq<Op>)
    requires ops != [] && ops[0].Ite?
    ensures Size(ops[0].thn + ops[1..]) < Size(ops)
    ensures Size(ops[0].els + ops[1..]) < Size(ops)
    ensures WellFormed(cells, regions, ops) <==>
            WellFormed(cells, regions, ops[0].thn + ops[1..]) && WellFormed(cells, regions, ops[0].els + ops[1..])
    ensures WellFormed(cells, regions, ops) ==>
              WellFormed(cells, regions, ops[0].thn) && WellFormed(cells, regions, ops[0].els)
  {
    SizeConcat(ops[0].thn, ops[1..]);
    SizeConcat(ops[0].els, ops[1..]);
    WellFormedConcat(cells, regions, ops[0].thn, ops[1..]);
    WellFormedConcat(cells, regions, ops[0].els, ops[1..]);
    assert SizeOp(ops[0]) == 1 + Size(ops[0].thn) + Size(ops[0].els);
    assert WellFormedOp(cells, regions, ops[0]) <==>
      WellFormed(cells, regions, ops[0].thn) && WellFormed(cells, regions, ops[0].els);
  }

  // ---------------------------------------------------------------- concrete semantics

  predicate PointersOk(cells: nat, ptr: Pointers) {
    && |ptr| == cells
    && forall a | 0 <= a < |ptr| :: ptr[a].Some? ==> ptr[a].value < cells
  }

  function NoPointers(cells: nat): (ptr: Pointers)
    ensures PointersOk(cells, ptr)
  {
    seq(cells, _ => None)
  }

  /** No live cell points into a dead region. */
  predicate SafeState(layout: Layout, ptr: Pointers, dead: set<Region>)
    requires PointersOk(|layout|, ptr)
  {
    forall a | 0 <= a < |ptr| && ptr[a].Some? ::
      Alive(layout[a], dead) ==> Alive(layout[ptr[a].value], dead)
  }

  datatype State = State(ptr: Pointers, dead: set<Region>)

  /** The effect of one operation that is not a branch. */
  function Effect(cells: nat, regions: nat, op: Op, s: State): (s': State)
    requires WellFormedOp(cells, regions, op) && !op.Ite?
    requires PointersOk(cells, s.ptr)
    ensures PointersOk(cells, s'.ptr)
  {
    match op
    case Store(a, b) => s.(ptr := s.ptr[a := Some(b)])
    case Copy(a, c) => s.(ptr := s.ptr[a := s.ptr[c]])
    case Exit(r) => s.(dead := s.dead + Subtree(regions, r))
  }

  /**
   The verdicts the scripts' `run` appends to `out`, in order: one per path until it ends or
   until its first unsafe state, where the path is abandoned.
   */
  function Run(layout: Layout, regions: nat, ops: seq<Op>, s: State): seq<bool>
    requires WellFormed(|layout|, regions, ops) && PointersOk(|layout|, s.ptr)
    decreases Size(ops)
  {
    if ops == [] then
      [true]
    else
      var rest := ops[1..];
      match ops[0]
      case Ite(t, e) =>
        BranchSplices(|layout|, regions, ops);
        Run(layout, regions, t + rest, s) + Run(layout, regions, e + rest, s)
      case op =>
        var s' := Effect(|layout|, regions, op, s);
        if SafeState(layout, s'.ptr, s'.dead) then Run(layout, regions, rest, s') else [false]
  }

  predicate AllTrue(out: seq<bool>) {
    forall i | 0 <= i < |out| :: out[i]
  }

  function Start(layout: Layout): (s: State)
    ensures PointersOk(|layout|, s.ptr)
  {
    State(NoPointers(|layout|), {})
  }

  predicate ConcretelySafe(layout: Layout, regions: nat, body: seq<Op>)
    requires WellFormed(|layout|, regions, body)
  {
    AllTrue(Run(layout, regions, body, Start(layout)))
  }

  // ---------------------------------------------------------------- paths: the reference semantics

  /** All branch-free executions of a program, built compositionally. */
  ghost function Paths(ops: seq<Op>): set<seq<Op>> {
    if ops == [] then {[]} else Product(PathsOp(ops[0]), Paths(ops[1..]))
  }

  ghost function PathsOp(op: Op): set<seq<Op>> {
    match op
    case Ite(t, e) => Paths(t) + Paths(e)
    case _ => {[op]}
  }

  ghost function Product(hs: set<seq<Op>>, ts: set<seq<Op>>): set<seq<Op>> {
    set h, t | h in hs && t in ts :: h + t
  }

  predicate Straight(p: seq<Op>) {
    forall i | 0 <= i < |p| :: !p[i].Ite?
  }

  lemma {:induction false} ProductIn(hs: set<seq<Op>>, ts: set<seq<Op>>, h: seq<Op>, t: seq<Op>)
    requires h in hs && t in ts
    ensures h + t in Product(hs, ts)
  {
  }

  lemma {:induction false} ProductUnion(h1: set<seq<Op>>, h2: set<seq<Op>>, ts: set<seq<Op>>)
    ensures Product(h1 + h2, ts) == Product(h1, ts) + Product(h2, ts)
  {
  }

  lemma {:induction false} ProductAssoc(xs: set<seq<Op>>, ys: set<seq<Op>>, zs: set<seq<Op>>)
    ensures Product(Product(xs, ys), zs) == Product(xs, Product(ys, zs))
  {
    forall p | p in Product(Product(xs, ys), zs)
      ensures p in Product(xs, Product(ys, zs))
    {
      var xy, z :| xy in Product(xs, ys) && z in zs && p == xy + z;
      var x, y :| x in xs && y in ys && xy == x + y;
      ProductIn(ys, zs, y, z);
      ProductIn(xs, Product(ys, zs), x, y + z);
      assert p == x + (y + z);
    }
    forall p | p in Product(xs, Product(ys, zs))
      ensures p in Product(Product(xs, ys), zs)
    {
      var x, yz :| x in xs && yz in Product(ys, zs) && p == x + yz;
      var y, z :| y in ys && z in zs && yz == y + z;
      ProductIn(xs, ys, x, y);
      ProductIn(Product(xs, ys), zs, x + y, z);
      assert p == (x + y) + z;
    }
  }

  lemma {:induction false} ProductUnit(ts: set<seq<Op>>)
    ensures Product({[]}, ts) == ts
  {
    forall p ensures p in Product({[]}, ts) <==> p in ts {
      if p in ts {
        ProductIn({[]}, ts, [], p);
        assert [] + p == p;
      }
      if p in Product({[]}, ts) {
        var h: seq<Op>, t :| h in {[]} && t in ts && p == h + t;
        assert p == t;
      }
    }
  }

  lemma {:induction false} PathsConcat(xs: seq<Op>, ys: seq<Op>)
    ensures Paths(xs + ys) == Product(Paths(xs), Paths(ys))
  {
    if xs == [] {
      assert xs + ys == ys;
      ProductUnit(Paths(ys));
    } else {
      assert (xs + ys)[1..] == xs[1..] + ys;
      PathsConcat(xs[1..], ys);
      ProductAssoc(PathsOp(xs[0]), Paths(xs[1..]), Paths(ys));
    }
  }

  lemma {:induction false} PathsOfUnion(ops: seq<Op>, t: set<seq<Op>>, e: set<seq<Op>>)
    requires ops != [] && PathsOp(ops[0]) == t + e
    ensures Paths(ops) == Product(t, Paths(ops[1..])) + Product(e, Paths(ops[1..]))
  {
    ProductUnion(t, e, Paths(ops[1..]));
  }

  lemma {:induction false} PathsOfBranch(op: Op)
    requires op.Ite?
    ensures PathsOp(op) == Paths(op.thn) + Paths(op.els)
  {
  }

  /** The paths of a branch are those of either side, spliced. */
  lemma {:induction false} BranchPaths(ops: seq<Op>)
    requires ops != [] && ops[0].Ite?
    ensures Paths(ops) == Paths(ops[0].thn + ops[1..]) + Paths(ops[0].els + ops[1..])
  {
    PathsOfBranch(ops[0]);
    PathsOfUnion(ops, Paths(ops[0].thn), Paths(ops[0].els));
    PathsConcat(ops[0].thn, ops[1..]);
    PathsConcat(ops[0].els, ops[1..]);
  }

  /** A path of `op; rest` is `op` followed by a path of `rest`. */
  lemma {:induction false} StepPaths(ops: seq<Op>, q: seq<Op>)
    requires ops != [] && !ops[0].Ite?
    ensures q in Paths(ops) <==> q != [] && q[0] == ops[0] && q[1..] in Paths(ops[1..])
  {
    if q in Paths(ops) {
      var h, t :| h in PathsOp(ops[0]) && t in Paths(ops[1..]) && q == h + t;
      assert q[1..] == t;
    }
    if q != [] && q[0] == ops[0] && q[1..] in Paths(ops[1..]) {
      ProductIn({[ops[0]]}, Paths(ops[1..]), [ops[0]], q[1..]);
      assert q == [ops[0]] + q[1..];
    }
  }

  lemma {:induction false} PathsAreStraight(cells: nat, regions: nat, ops: seq<Op>, p: seq<Op>)
    requires WellFormed(cells, regions, ops) && p in Paths(ops)
    ensures Straight(p) && WellFormed(cells, regions, p)
    decreases ops
  {
    if ops != [] {
      var h, t :| h in PathsOp(ops[0]) && t in Paths(ops[1..]) && p == h + t;
      PathsAreStraight(cells, regions, ops[1..], t);
      if ops[0].Ite? {
        BranchSplices(cells, regions, ops);
        if h in Paths(ops[0].thn) {
          PathsAreStraight(cells, regions, ops[0].thn, h);
        } else {
          PathsAreStraight(cells, regions, ops[0].els, h);
        }
      } else {
        assert h[1..] == [];
      }
      WellFormedConcat(cells, regions, h, t);
    }
  }

  /** A branch-free program has one path, itself. */
  lemma {:induction false} StraightIsItsPath(p: seq<Op>)
    requires Straight(p)
    ensures Paths(p) == {p}
  {
    if p != [] {
      StraightIsItsPath(p[1..]);
      assert p == [p[0]] + p[1..];
      ProductIn({[p[0]]}, {p[1..]}, [p[0]], p[1..]);
    }
  }

  /** The state after a branch-free program. */
  function Exec(cells: nat, regions: nat, p: seq<Op>, s: State): (s': State)
    requires Straight(p) && WellFormed(cells, regions, p) && PointersOk(cells, s.ptr)
    ensures PointersOk(cells, s'.ptr)
  {
    if p == [] then s else Exec(cells, regions, p[1..], Effect(cells, regions, p[0], s))
  }

  lemma {:induction false} PrefixOk(cells: nat, regions: nat, p: seq<Op>, k: nat)
    requires Straight(p) && WellFormed(cells, regions, p) && k <= |p|
    ensures Straight(p[..k]) && WellFormed(cells, regions, p[..k])
  {
    assert p == p[..k] + p[k..];
    WellFormedConcat(cells, regions, p[..k], p[k..]);
  }

  /** Every state a branch-free program passes through is safe. */
  ghost predicate SafeAlong(layout: Layout, regions: nat, p: seq<Op>, s: State)
    requires Straight(p) && WellFormed(|layout|, regions, p) && PointersOk(|layout|, s.ptr)
  {
    forall k: nat | k <= |p| :: SafeAfter(layout, regions, p, s, k)
  }

  ghost predicate SafeAfter(layout: Layout, regions: nat, p: seq<Op>, s: State, k: nat)
    requires Straight(p) && WellFormed(|layout|, regions, p) && PointersOk(|layout|, s.ptr) && k <= |p|
  {
    PrefixOk(|layout|, regions, p, k);
    var s' := Exec(|layout|, regions, p[..k], s);
    SafeState(layout, s'.ptr, s'.dead)
  }

  /** Safe on every path, at every step. */
  ghost predicate SafeEverywhere(layout: Layout, regions: nat, ops: seq<Op>, s: State)
    requires WellFormed(|layout|, regions, ops) && PointersOk(|layout|, s.ptr)
  {
    forall p | p in Paths(ops) ::
      PathsAreStraight(|layout|, regions, ops, p);
      SafeAlong(layout, regions, p, s)
  }

  lemma {:induction false} SafeAlongStep(layout: Layout, regions: nat, p: seq<Op>, s: State)
    requires Straight(p) && WellFormed(|layout|, regions, p) && PointersOk(|layout|, s.ptr)
    requires p != []
    ensures SafeAlong(layout, regions, p, s) <==>
            && SafeState(layout, s.ptr, s.dead)
            && SafeAlong(layout, regions, p[1..], Effect(|layout|, regions, p[0], s))
  {
    var s1 := Effect(|layout|, regions, p[0], s);
    forall k: nat | 1 <= k <= |p|
      ensures SafeAfter(layout, regions, p, s, k) <==> SafeAfter(layout, regions, p[1..], s1, k - 1)
    {
      PrefixOk(|layout|, regions, p, k);
      PrefixOk(|layout|, regions, p[1..], k - 1);
      assert p[..k][1..] == p[1..][..k - 1];
    }
    assert p[..0] == [];
    assert SafeAfter(layout, regions, p, s, 0) <==> SafeState(layout, s.ptr, s.dead);
    if SafeAlong(layout, regions, p, s) {
      forall j: nat | j <= |p[1..]|
        ensures SafeAfter(layout, regions, p[1..], s1, j)
      {
        assert SafeAfter(layout, regions, p, s, j + 1);
      }
    }
  }

  /**
   The continuation-passing `run` computes the reference notion: its verdicts are all true
   exactly when every state of every path is safe.
   */
  lemma {:induction false} RunMeansSafeEverywhere(layout: Layout, regions: nat, ops: seq<Op>, s: State)
    requires WellFormed(|layout|, regions, ops) && PointersOk(|layout|, s.ptr)
    requires SafeState(layout, s.ptr, s.dead)
    ensures AllTrue(Run(layout, regions, ops, s)) <==> SafeEverywhere(layout, regions, ops, s)
    decreases Size(ops)
  {
    if ops == [] {
      assert Paths(ops) == {[]};
    } else {
      var rest := ops[1..];
      match ops[0]
      case Ite(t, e) =>
        BranchSplices(|layout|, regions, ops);
        RunMeansSafeEverywhere(layout, regions, t + rest, s);
        RunMeansSafeEverywhere(layout, regions, e + rest, s);
        BranchEverywhere(layout, regions, ops, s);
        AllTrueConcat(Run(layout, regions, t + rest, s), Run(layout, regions, e + rest, s));
      case op =>
        var s' := Effect(|layout|, regions, op, s);
        StepEverywhere(layout, regions, ops, s);
        if SafeState(layout, s'.ptr, s'.dead) {
          RunMeansSafeEverywhere(layout, regions, rest, s');
        } else {
          UnsafeStartSpoils(layout, regions, rest, s');
          assert !AllTrue([false]) by { assert ![false][0]; }
        }
    }
  }

  lemma {:induction false} AllTrueConcat(xs: seq<bool>, ys: seq<bool>)
    ensures AllTrue(xs + ys) <==> AllTrue(xs) && AllTrue(ys)
  {
    if AllTrue(xs + ys) {
      assert forall i | 0 <= i < |xs| :: xs[i] == (xs + ys)[i];
      assert forall i | 0 <= i < |ys| :: ys[i] == (xs + ys)[|xs| + i];
    }
  }

  lemma {:induction false} BranchEverywhere(layout: Layout, regions: nat, ops: seq<Op>, s: State)
    requires WellFormed(|layout|, regions, ops) && PointersOk(|layout|, s.ptr)
    requires ops != [] && ops[0].Ite?
    requires WellFormed(|layout|, regions, ops[0].thn + ops[1..])
    requires WellFormed(|layout|, regions, ops[0].els + ops[1..])
    ensures SafeEverywhere(layout, regions, ops, s) <==>
            && SafeEverywhere(layout, regions, ops[0].thn + ops[1..], s)
            && SafeEverywhere(layout, regions, ops[0].els + ops[1..], s)
  {
    BranchPaths(ops);
  }

  lemma {:induction false} StepEverywhere(layout: Layout, regions: nat, ops: seq<Op>, s: State)
    requires WellFormed(|layout|, regions, ops) && PointersOk(|layout|, s.ptr)
    requires ops != [] && !ops[0].Ite? && SafeState(layout, s.ptr, s.dead)
    ensures SafeEverywhere(layout, regions, ops, s) <==>
            SafeEverywhere(layout, regions, ops[1..], Effect(|layout|, regions, ops[0], s))
  {
    var s' := Effect(|layout|, regions, ops[0], s);
    if SafeEverywhere(layout, regions, ops, s) {
      forall t | t in Paths(ops[1..])
        ensures Straight(t) && WellFormed(|layout|, regions, t) && SafeAlong(layout, regions, t, s')
      {
        var p := [ops[0]] + t;
        assert p[1..] == t;
        StepPaths(ops, p);
        PathsAreStraight(|layout|, regions, ops, p);
        SafeAlongStep(layout, regions, p, s);
      }
    }
    if SafeEverywhere(layout, regions, ops[1..], s') {
      forall p | p in Paths(ops)
        ensures Straight(p) && WellFormed(|layout|, regions, p) && SafeAlong(layout, regions, p, s)
      {
        StepPaths(ops, p);
        PathsAreStraight(|layout|, regions, ops, p);
        SafeAlongStep(layout, regions, p, s);
      }
    }
  }

  /** Every program has a path, so an unsafe starting state is seen. */
  lemma {:induction false} UnsafeStartSpoils(layout: Layout, regions: nat, ops: seq<Op>, s: State)
    requires WellFormed(|layout|, regions, ops) && PointersOk(|layout|, s.ptr)
    requires !SafeState(layout, s.ptr, s.dead)
    ensures !SafeEverywhere(layout, regions, ops, s)
  {
    var p := SomePath(ops);
    PathsAreStraight(|layout|, regions, ops, p);
    assert p[..0] == [];
    assert !SafeAfter(layout, regions, p, s, 0);
  }

  lemma {:induction false} SomePath(ops: seq<Op>) returns (p: seq<Op>)
    ensures p in Paths(ops)
    decreases ops
  {
    if ops == [] {
      p := [];
    } else {
      var t := SomePath(ops[1..]);
      var h := [ops[0]];
      if ops[0].Ite? {
        h := SomePath(ops[0].thn);
      }
      ProductIn(PathsOp(ops[0]), Paths(ops[1..]), h, t);
      p := h + t;
    }
  }

  // ---------------------------------------------------------------- the recursion with its output list

  /** The list `out` that the scripts thread through `run`. */
  class Verdicts {
    var out: seq<bool>

    constructor ()
      ensures out == []
    {
      out := [];
    }

    method Perform(ghost cells: nat, regions: nat, op: Op, ptr: Pointers, dead: set<Region>)
      returns (ptr': Pointers, dead': set<Region>)
      requires WellFormedOp(cells, regions, op) && !op.Ite? && PointersOk(cells, ptr)
      ensures State(ptr', dead') == Effect(cells, regions, op, State(ptr, dead))
    {
      ptr', dead' := ptr, dead;
      match op {
        case Store(a, b) => ptr' := ptr[a := Some(b)];
        case Copy(a, c) => ptr' := ptr[a := ptr[c]];
        case Exit(r) => dead' := dead + Subtree(regions, r);
      }
    }

    method RunInto(layout: Layout, regions: nat, ops: seq<Op>, ptr: Pointers, dead: set<Region>)
      requires WellFormed(|layout|, regions, ops) && PointersOk(|layout|, ptr)
      modifies this
      ensures out == old(out) + Run(layout, regions, ops, State(ptr, dead))
      decreases Size(ops)
    {
      if ops == [] {
        out := out + [true];
        return;
      }
      var op, rest := ops[0], ops[1..];
      if op.Ite? {
        BranchSplices(|layout|, regions, ops);
        RunInto(layout, regions, op.thn + rest, ptr, dead);
        RunInto(layout, regions, op.els + rest, ptr, dead);
      } else {
        var ptr', dead' := Perform(|layout|, regions, op, ptr, dead);
        if !SafeState(layout, ptr', dead') {
          out := out + [false];
          return;
        }
        RunInto(layout, regions, rest, ptr', dead');
      }
    }
  }

  /** `concretely_safe`: every verdict `run` left in its output list is true. */
  method CheckConcretely(layout: Layout, regions: nat, body: seq<Op>) returns (safe: bool)
    requires WellFormed(|layout|, regions, body)
    ensures safe <==> SafeEverywhere(layout, regions, body, Start(layout))
  {
    var verdicts := new Verdicts();
    var s := Start(layout);
    verdicts.RunInto(layout, regions, body, s.ptr, s.dead);
    RunMeansSafeEverywhere(layout, regions, body, s);
    assert [] + Run(layout, regions, body, s) == Run(layout, regions, body, s);
    safe := AllTrue(verdicts.out);
  }

  // ---------------------------------------------------------------- scoping

  /** On every path, a store or copy only names cells whose regions are still alive. */
  predicate WellScoped(layout: Layout, regions: nat, ops: seq<Op>, dead: set<Region>)
    requires WellFormed(|layout|, regions, ops)
    decreases Size(ops)
  {
    if ops == [] then
      true
    else
      assert WellFormedOp(|layout|, regions, ops[0]);
      match ops[0]
      case Store(a, b) =>
        Alive(layout[a], dead) && Alive(layout[b], dead) && WellScoped(layout, regions, ops[1..], dead)
      case Copy(a, c) =>
        Alive(layout[a], dead) && Alive(layout[c], dead) && WellScoped(layout, regions, ops[1..], dead)
      case Exit(r) =>
        WellScoped(layout, regions, ops[1..], dead + Subtree(regions, r))
      case Ite(t, e) =>
        BranchSplices(|layout|, regions, ops);
        WellScoped(layout, regions, t + ops[1..], dead) && WellScoped(layout, regions, e + ops[1..], dead)
  }
}
