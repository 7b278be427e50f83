/**
 Which rejections are forced: for a rejected program the search builds a twin that shows the
 checker the same checks up to the rejected store, and that really is unsafe.
 */
module ForcedTwin {
  import opened Wrappers
  import opened RegionProgram
  import opened Inference
  import PathSensitivity

  /** Programs of this script have stores, exits and branches only. */
  predicate CopyFree(ops: seq<Op>) {
    ops == [] || (CopyFreeOp(ops[0]) && CopyFree(ops[1..]))
  }

  predicate CopyFreeOp(op: Op) {
    match op
    case Copy(_, _) => false
    case Ite(t, e) => CopyFree(t) && CopyFree(e)
    case _ => true
  }

  // ---------------------------------------------------------------- the analysis and its trace

  /** What the analysis looks at: the depths compared by a check, and exits it ignores. */
  datatype Event = Check(content: nat, holder: nat) | Exited(r: Region)

  datatype Verdict = Verdict(ok: bool, trace: seq<Event>)

  /** `analyze`: both branches are analysed even when the first is rejected. */
  function Analyze(layout: Layout, regions: nat, ops: seq<Op>): Verdict
    requires WellFormed(|layout|, regions, ops) && CopyFree(ops)
    decreases ops
  {
    if ops == [] then Verdict(true, []) else
    var v := AnalyzeOp(layout, regions, ops[0]);
    if !v.ok then v else
    var w := Analyze(layout, regions, ops[1..]);
    Verdict(w.ok, v.trace + w.trace)
  }

  function AnalyzeOp(layout: Layout, regions: nat, op: Op): Verdict
    requires WellFormedOp(|layout|, regions, op) && CopyFreeOp(op)
    decreases op
  {
    match op
    case Store(a, b) => Verdict(layout[b] <= layout[a], [Check(layout[b], layout[a])])
    case Exit(r) => Verdict(true, [Exited(r)])
    case Ite(t, e) =>
      var vt := Analyze(layout, regions, t);
      var ve := Analyze(layout, regions, e);
      Verdict(vt.ok && ve.ok, vt.trace + ve.trace)
  }

  predicate Accepted(layout: Layout, regions: nat, body: seq<Op>)
    requires WellFormed(|layout|, regions, body) && CopyFree(body)
  {
    Analyze(layout, regions, body).ok
  }

  function Checks(trace: seq<Event>): seq<Event> {
    if trace == [] then []
    else if trace[0].Check? then [trace[0]] + Checks(trace[1..])
    else Checks(trace[1..])
  }

  /** `check_trace`: the checks the decision rests on. */
  function CheckTrace(layout: Layout, regions: nat, body: seq<Op>): seq<Event>
    requires WellFormed(|layout|, regions, body) && CopyFree(body)
  {
    Checks(Analyze(layout, regions, body).trace)
  }

  /** The loop of `analyze`, appending to the caller's trace. */
  class Tracer {
    var trace: seq<Event>

    constructor ()
      ensures trace == []
    {
      trace := [];
    }

    method AnalyzeInto(layout: Layout, regions: nat, body: seq<Op>) returns (ok: bool)
      requires WellFormed(|layout|, regions, body) && CopyFree(body)
      modifies this
      ensures ok == Analyze(layout, regions, body).ok
      ensures trace == old(trace) + Analyze(layout, regions, body).trace
      decreases body
    {
      ghost var goal := After(trace, Analyze(layout, regions, body));
      for i := 0 to |body|
        invariant WellFormed(|layout|, regions, body[i..]) && CopyFree(body[i..])
        invariant goal == After(trace, Analyze(layout, regions, body[i..]))
      {
        AnalyzeStep(layout, regions, body[i..], trace);
        assert body[i..][1..] == body[i + 1..];
        var ok' := AnalyzeOpInto(layout, regions, body[i]);
        if !ok' {
          return false;
        }
      }
      ok := true;
    }

    method AnalyzeOpInto(layout: Layout, regions: nat, op: Op) returns (ok: bool)
      requires WellFormedOp(|layout|, regions, op) && CopyFreeOp(op)
      modifies this
      ensures ok == AnalyzeOp(layout, regions, op).ok
      ensures trace == old(trace) + AnalyzeOp(layout, regions, op).trace
      decreases op
    {
      match op {
        case Store(a, b) =>
          trace := trace + [Check(layout[b], layout[a])];
          ok := layout[b] <= layout[a];
        case Exit(r) =>
          trace := trace + [Exited(r)];
          ok := true;
        case Ite(t, e) =>
          var okT := AnalyzeInto(layout, regions, t);
          var okE := AnalyzeInto(layout, regions, e);
          ok := okT && okE;
      }
    }
  }

  ghost function After(done: seq<Event>, v: Verdict): Verdict {
    Verdict(v.ok, done + v.trace)
  }

  lemma {:induction false} AnalyzeStep(layout: Layout, regions: nat, ops: seq<Op>, done: seq<Event>)
    requires WellFormed(|layout|, regions, ops) && CopyFree(ops) && ops != []
    ensures var v := AnalyzeOp(layout, regions, ops[0]);
            After(done, Analyze(layout, regions, ops)) ==
            if v.ok then After(done + v.trace, Analyze(layout, regions, ops[1..])) else After(done, v)
  {
    var v := AnalyzeOp(layout, regions, ops[0]);
    var w := Analyze(layout, regions, ops[1..]);
    assert done + (v.trace + w.trace) == done + v.trace + w.trace;
  }

  // ---------------------------------------------------------------- four ways to say "accepted"

  /** No store of the program puts a deeper cell into a shallower one. */
  predicate ShallowStores(layout: Layout, p: seq<Op>) {
    forall i | 0 <= i < |p| && p[i].Store? ::
      p[i].a < |layout| && p[i].b < |layout| && layout[p[i].b] <= layout[p[i].a]
  }

  /** The depth analysis of this script decides the model's criterion on the stores. */
  lemma {:induction false} AcceptedIffStoresMeet(layout: Layout, regions: nat, ops: seq<Op>)
    requires WellFormed(|layout|, regions, ops) && CopyFree(ops)
    ensures Accepted(layout, regions, ops) <==> ModelAccepts(layout, regions, ops)
    decreases ops
  {
    StoresAreStores(|layout|, regions, ops);
    if ops != [] {
      var rest := ops[1..];
      AcceptedIffStoresMeet(layout, regions, rest);
      StoresAreStores(|layout|, regions, rest);
      var op := ops[0];
      if op.Ite? {
        AcceptedIffStoresMeet(layout, regions, op.thn);
        AcceptedIffStoresMeet(layout, regions, op.els);
        StoresAreStores(|layout|, regions, op.thn);
        StoresAreStores(|layout|, regions, op.els);
        SolvesConcat(layout, StoresOf(op.thn), StoresOf(op.els));
      }
      SolvesConcat(layout, StoresOfOp(op), StoresOf(rest));
      assert AnalyzeOp(layout, regions, op).ok <==> Solves(layout, StoresOfOp(op)) by {
        if op.Store? {
          assert StoresOfOp(op)[0] == op;
          assert Solves(layout, [op]) <==> Meets(layout, [op][0]);
        }
      }
    }
  }

  lemma {:induction false} SolvesConcat(layout: Layout, xs: seq<Op>, ys: seq<Op>)
    requires StoresOk(|layout|, xs + ys)
    ensures StoresOk(|layout|, xs) && StoresOk(|layout|, ys)
    ensures Solves(layout, xs + ys) <==> Solves(layout, xs) && Solves(layout, ys)
  {
    forall i | 0 <= i < |xs| ensures xs[i] == (xs + ys)[i] {}
    forall i | 0 <= i < |ys| ensures ys[i] == (xs + ys)[|xs| + i] {}
    if Solves(layout, xs + ys) {
      forall i | 0 <= i < |xs| ensures Meets(layout, xs[i]) { assert Meets(layout, (xs + ys)[i]); }
      forall i | 0 <= i < |ys| ensures Meets(layout, ys[i]) { assert Meets(layout, (xs + ys)[|xs| + i]); }
    }
  }

  /** The same program is accepted by the analysis that records depths, in either mode. */
  lemma {:induction false} AcceptedIffDepthsAccepted(layout: Layout, regions: nat, body: seq<Op>,
          mode: PathSensitivity.Mode)
    requires WellFormed(|layout|, regions, body) && CopyFree(body)
    ensures Accepted(layout, regions, body) <==> PathSensitivity.Accepts(layout, regions, body, mode)
  {
    DepthsAccepted(layout, regions, body, [PathSensitivity.NothingKnown(|layout|)], mode);
  }

  lemma {:induction false} DepthsAccepted(layout: Layout, regions: nat, ops: seq<Op>,
          ds: seq<PathSensitivity.Abstract>, mode: PathSensitivity.Mode)
    requires WellFormed(|layout|, regions, ops) && CopyFree(ops) && PathSensitivity.StatesOk(|layout|, ds, mode)
    ensures Analyze(layout, regions, ops).ok <==> PathSensitivity.Analyze(layout, regions, ops, ds, mode).Some?
    decreases ops
  {
    if ops != [] {
      if ops[0].Ite? {
        DepthsAccepted(layout, regions, ops[0].thn, ds, mode);
        DepthsAccepted(layout, regions, ops[0].els, ds, mode);
      }
      var r := PathSensitivity.AnalyzeOp(layout, regions, ops[0], ds, mode);
      if r.Some? {
        DepthsAccepted(layout, regions, ops[1..], r.value, mode);
      }
    }
  }

  /** No path of the set stores a deeper cell into a shallower one. */
  ghost predicate AllShallow(layout: Layout, paths: set<seq<Op>>) {
    forall p | p in paths :: ShallowStores(layout, p)
  }

  lemma {:induction false} AllShallowUnion(layout: Layout, a: set<seq<Op>>, b: set<seq<Op>>)
    ensures AllShallow(layout, a + b) <==> AllShallow(layout, a) && AllShallow(layout, b)
  {
  }

  lemma {:induction false} BasicAcceptedIff(layout: Layout, regions: nat, op: Op)
    requires WellFormedOp(|layout|, regions, op) && CopyFreeOp(op) && !op.Ite?
    ensures AnalyzeOp(layout, regions, op).ok <==> AllShallow(layout, PathsOp(op))
  {
    assert forall h | h in PathsOp(op) :: h == [op];
    assert [op] in PathsOp(op) && [op][0] == op;
  }

  /** Acceptance looks at every path: a program is accepted when all stores of all its paths are shallow. */
  lemma {:induction false} AcceptedIffPathsShallow(layout: Layout, regions: nat, ops: seq<Op>)
    requires WellFormed(|layout|, regions, ops) && CopyFree(ops)
    ensures Accepted(layout, regions, ops) <==> AllShallow(layout, Paths(ops))
    decreases ops
  {
    if ops != [] {
      var op, rest := ops[0], ops[1..];
      AcceptedIffPathsShallow(layout, regions, rest);
      if op.Ite? {
        AcceptedIffPathsShallow(layout, regions, op.thn);
        AcceptedIffPathsShallow(layout, regions, op.els);
        AllShallowUnion(layout, Paths(op.thn), Paths(op.els));
        assert AnalyzeOp(layout, regions, op).ok <==>
                 Accepted(layout, regions, op.thn) && Accepted(layout, regions, op.els);
      } else {
        BasicAcceptedIff(layout, regions, op);
      }
      ShallowPaths(layout, ops);
      assert AnalyzeOp(layout, regions, op).ok <==> AllShallow(layout, PathsOp(op));
    } else {
      assert [] in Paths(ops) && forall p | p in Paths(ops) :: p == [];
    }
  }

  lemma {:induction false} ProductUnitRight(hs: set<seq<Op>>)
    ensures Product(hs, {[]}) == hs
  {
    forall p ensures p in Product(hs, {[]}) <==> p in hs {
      if p in hs {
        ProductIn(hs, {[]}, p, []);
        assert p + [] == p;
      }
      if p in Product(hs, {[]}) {
        var h, t: seq<Op> :| h in hs && t in {[]} && p == h + t;
        assert p == h;
      }
    }
  }

  /** The paths of a program are shallow when those of its first operation and those of the rest are. */
  lemma {:induction false} ShallowPaths(layout: Layout, ops: seq<Op>)
    requires ops != []
    ensures AllShallow(layout, Paths(ops)) <==>
              AllShallow(layout, PathsOp(ops[0])) && AllShallow(layout, Paths(ops[1..]))
  {
    var op, rest := ops[0], ops[1..];
    var h0 := SomePath([op]);
    assert [op][1..] == [] && [op][0] == op;
    ProductUnitRight(PathsOp(op));
    ShallowProduct(layout, PathsOp(op), Paths(rest), rest);
  }

  lemma {:induction false} ShallowProduct(layout: Layout, hs: set<seq<Op>>, ts: set<seq<Op>>, rest: seq<Op>)
    requires ts == Paths(rest) && hs != {}
    ensures AllShallow(layout, Product(hs, ts)) <==> AllShallow(layout, hs) && AllShallow(layout, ts)
  {
    forall h, t ensures ShallowStores(layout, h + t) <==> ShallowStores(layout, h) && ShallowStores(layout, t) {
      ShallowConcat(layout, h, t);
    }
    var h0 :| h0 in hs;
    var t0 := SomePath(rest);
    if forall p | p in Product(hs, ts) :: ShallowStores(layout, p) {
      forall h | h in hs ensures ShallowStores(layout, h) {
        ProductIn(hs, ts, h, t0);
      }
      forall t | t in ts ensures ShallowStores(layout, t) {
        ProductIn(hs, ts, h0, t);
      }
    }
  }

  lemma {:induction false} ShallowConcat(layout: Layout, h: seq<Op>, t: seq<Op>)
    ensures ShallowStores(layout, h + t) <==> ShallowStores(layout, h) && ShallowStores(layout, t)
  {
    if ShallowStores(layout, h + t) {
      assert forall i | 0 <= i < |h| :: h[i] == (h + t)[i];
      assert forall i | 0 <= i < |t| :: t[i] == (h + t)[|h| + i];
    }
  }

  // ---------------------------------------------------------------- the search

  predicate TooDeep(layout: Layout, op: Op) {
    op.Store? && op.a < |layout| && op.b < |layout| && layout[op.b] > layout[op.a]
  }

  predicate StraightLine(cells: nat, regions: nat, p: seq<Op>) {
    Straight(p) && WellFormed(cells, regions, p) && CopyFree(p)
  }

  lemma {:induction false} CopyFreeConcat(xs: seq<Op>, ys: seq<Op>)
    ensures CopyFree(xs + ys) <==> CopyFree(xs) && CopyFree(ys)
  {
    if xs == [] {
      assert xs + ys == ys;
    } else {
      CopyFreeConcat(xs[1..], ys);
      assert (xs + ys)[1..] == xs[1..] + ys;
    }
  }

  lemma {:induction false} StraightLineConcat(cells: nat, regions: nat, xs: seq<Op>, ys: seq<Op>)
    ensures StraightLine(cells, regions, xs + ys) <==>
              StraightLine(cells, regions, xs) && StraightLine(cells, regions, ys)
  {
    WellFormedConcat(cells, regions, xs, ys);
    CopyFreeConcat(xs, ys);
    if Straight(xs + ys) {
      assert forall i | 0 <= i < |xs| :: xs[i] == (xs + ys)[i];
      assert forall i | 0 <= i < |ys| :: ys[i] == (xs + ys)[|xs| + i];
    }
  }

  lemma {:induction false} StraightLineSnoc(cells: nat, regions: nat, xs: seq<Op>, op: Op)
    requires StraightLine(cells, regions, xs) && !op.Ite? && !op.Copy? && WellFormedOp(cells, regions, op)
    ensures StraightLine(cells, regions, xs + [op])
  {
    StraightLineConcat(cells, regions, xs, [op]);
    assert [op][1..] == [] && CopyFreeOp(op);
    assert WellFormed(cells, regions, [op]) && CopyFree([op]);
  }

  lemma {:induction false} BranchesCopyFree(ops: seq<Op>)
    requires ops != [] && ops[0].Ite? && CopyFree(ops)
    ensures CopyFree(ops[0].thn + ops[1..]) && CopyFree(ops[0].els + ops[1..])
  {
    CopyFreeConcat(ops[0].thn, ops[1..]);
    CopyFreeConcat(ops[0].els, ops[1..]);
    assert CopyFreeOp(ops[0]);
  }

  /** The twin of the straight program `pre + [op]`: right after `op`, the pointee's region goes away. */
  function Candidate(layout: Layout, pre: seq<Op>, op: Op): seq<Op>
    requires TooDeep(layout, op)
  {
    pre + [op, Exit(layout[op.b])]
  }

  lemma {:induction false} CandidateShape(layout: Layout, regions: nat, pre: seq<Op>, op: Op)
    requires StraightLine(|layout|, regions, pre) && WellFormedOp(|layout|, regions, op) && LayoutOk(regions, layout)
    requires TooDeep(layout, op)
    ensures StraightLine(|layout|, regions, pre + [op]) && StraightLine(|layout|, regions, Candidate(layout, pre, op))
    ensures Candidate(layout, pre, op) == pre + [op] + [Exit(layout[op.b])]
  {
    StraightLineSnoc(|layout|, regions, pre, op);
    StraightLineSnoc(|layout|, regions, pre + [op], Exit(layout[op.b]));
    assert Candidate(layout, pre, op) == pre + [op] + [Exit(layout[op.b])];
  }

  /**
   `walk` of `forced_twin`, with `pre` the operations kept so far: the first store that is too
   deep along the leftmost path, and the other branches when its candidate is no good.
   */
  function Walk(layout: Layout, regions: nat, pre: seq<Op>, ops: seq<Op>): (r: Option<seq<Op>>)
    requires LayoutOk(regions, layout) && StraightLine(|layout|, regions, pre)
    requires WellFormed(|layout|, regions, ops) && CopyFree(ops)
    decreases Size(ops)
  {
    if ops == [] then None else
    var op, rest := ops[0], ops[1..];
    assert WellFormedOp(|layout|, regions, op) && CopyFreeOp(op);
    if op.Ite? then
      BranchSplices(|layout|, regions, ops); BranchesCopyFree(ops);
      var got := Walk(layout, regions, pre, op.thn + rest);
      if got.Some? then got else Walk(layout, regions, pre, op.els + rest)
    else if TooDeep(layout, op) then
      CandidateShape(layout, regions, pre, op);
      var twin := Candidate(layout, pre, op);
      if CheckTrace(layout, regions, twin) != CheckTrace(layout, regions, pre + [op]) then None
      else if ConcretelySafe(layout, regions, twin) then None
      else Some(twin)
    else
      StraightLineSnoc(|layout|, regions, pre, op);
      Walk(layout, regions, pre + [op], rest)
  }

  /** `forced_twin` with its shared list `res`, pushed to along a path and restored between branches. */
  class TwinSearch {
    var res: seq<Op>

    constructor ()
      ensures res == []
    {
      res := [];
    }

    method Search(layout: Layout, regions: nat, ops: seq<Op>) returns (got: Option<seq<Op>>)
      requires LayoutOk(regions, layout) && StraightLine(|layout|, regions, res)
      requires WellFormed(|layout|, regions, ops) && CopyFree(ops)
      modifies this
      ensures got == Walk(layout, regions, old(res), ops)
      decreases Size(ops)
    {
      if ops == [] {
        return None;
      }
      var op, rest := ops[0], ops[1..];
      assert WellFormedOp(|layout|, regions, op) && CopyFreeOp(op);
      match op {
        case Store(a, b) =>
          if layout[b] > layout[a] {
            CandidateShape(layout, regions, res, op);
            var twin := res + [op, Exit(layout[b])];
            if CheckTrace(layout, regions, twin) != CheckTrace(layout, regions, res + [op]) {
              return None;
            }
            if ConcretelySafe(layout, regions, twin) {
              return None;
            }
            return Some(twin);
          }
          StraightLineSnoc(|layout|, regions, res, op);
          res := res + [op];
          got := Search(layout, regions, rest);
        case Exit(_) =>
          StraightLineSnoc(|layout|, regions, res, op);
          res := res + [op];
          got := Search(layout, regions, rest);
        case Ite(t, e) =>
          BranchSplices(|layout|, regions, ops);
          BranchesCopyFree(ops);
          var save := res;
          got := Search(layout, regions, t + rest);
          if got.Some? {
            return;
          }
          res := save;
          got := Search(layout, regions, e + rest);
      }
    }
  }

  function ForcedTwin(layout: Layout, regions: nat, body: seq<Op>): Option<seq<Op>>
    requires LayoutOk(regions, layout) && WellFormed(|layout|, regions, body) && CopyFree(body)
  {
    Walk(layout, regions, [], body)
  }

  // ---------------------------------------------------------------- what the search finds

  /** Store `k` of path `p` is the first one the checker rejects. */
  predicate Rejects(layout: Layout, p: seq<Op>, k: nat) {
    k < |p| && TooDeep(layout, p[k]) && ShallowStores(layout, p[..k])
  }

  /** ... and the holder's region is still alive when that store runs. */
  ghost predicate RejectsAlive(layout: Layout, regions: nat, p: seq<Op>, k: nat) {
    && StraightLine(|layout|, regions, p)
    && Rejects(layout, p, k)
    && StraightLine(|layout|, regions, p[..k])
    && Alive(layout[p[k].a], Exec(|layout|, regions, p[..k], Start(layout)).dead)
  }

  /** The pointers recorded in a state respect depth. */
  ghost predicate PointersShallow(layout: Layout, ptr: Pointers)
    requires PointersOk(|layout|, ptr)
  {
    forall a | 0 <= a < |ptr| && ptr[a].Some? :: layout[ptr[a].value] <= layout[a]
  }

  lemma {:induction false} PointersShallowIsSafe(layout: Layout, ptr: Pointers, dead: set<Region>)
    requires PointersOk(|layout|, ptr) && PointersShallow(layout, ptr)
    ensures SafeState(layout, ptr, dead)
  {
    forall a | 0 <= a < |ptr| && ptr[a].Some? && Alive(layout[a], dead)
      ensures Alive(layout[ptr[a].value], dead)
    {
      ShallowerOutlives(layout[a], layout[ptr[a].value], dead);
    }
  }

  lemma {:induction false} ShallowPathIsSafe(layout: Layout, regions: nat, p: seq<Op>, s: State)
    requires StraightLine(|layout|, regions, p) && ShallowStores(layout, p)
    requires PointersOk(|layout|, s.ptr) && PointersShallow(layout, s.ptr)
    ensures SafeAlong(layout, regions, p, s) && PointersShallow(layout, Exec(|layout|, regions, p, s).ptr)
  {
    PointersShallowIsSafe(layout, s.ptr, s.dead);
    if p != [] {
      var s' := Effect(|layout|, regions, p[0], s);
      assert WellFormedOp(|layout|, regions, p[0]) && CopyFreeOp(p[0]);
      assert PointersShallow(layout, s'.ptr);
      assert ShallowStores(layout, p[1..]);
      ShallowPathIsSafe(layout, regions, p[1..], s');
      SafeAlongStep(layout, regions, p, s);
    }
  }

  /** The candidate really dangles exactly when the holder was still alive at the rejected store. */
  lemma {:induction false} CandidateUnsafeIffAlive(layout: Layout, regions: nat, pre: seq<Op>, op: Op)
    requires LayoutOk(regions, layout) && StraightLine(|layout|, regions, pre) && ShallowStores(layout, pre)
    requires WellFormedOp(|layout|, regions, op) && TooDeep(layout, op)
    ensures WellFormed(|layout|, regions, Candidate(layout, pre, op))
    ensures !ConcretelySafe(layout, regions, Candidate(layout, pre, op)) <==>
            Alive(layout[op.a], Exec(|layout|, regions, pre, Start(layout)).dead)
  {
    CandidateShape(layout, regions, pre, op);
    var start := Start(layout);
    var twin, tail := Candidate(layout, pre, op), [op, Exit(layout[op.b])];
    ShallowPathIsSafe(layout, regions, pre, start);
    PointersShallowIsSafe(layout, start.ptr, start.dead);
    RunMeansSafeEverywhere(layout, regions, twin, start);
    StraightIsItsPath(twin);
    StraightLineConcat(|layout|, regions, pre, tail);
    SafeAlongSplit(layout, regions, pre, tail, start);
    TailUnsafeIffAlive(layout, regions, op, Exec(|layout|, regions, pre, start));
  }

  lemma {:induction false} SafeAlongSplit(layout: Layout, regions: nat, h: seq<Op>, t: seq<Op>, s: State)
    requires Straight(h) && Straight(t) && WellFormed(|layout|, regions, h) && WellFormed(|layout|, regions, t)
    requires PointersOk(|layout|, s.ptr)
    ensures WellFormed(|layout|, regions, h + t)
    ensures SafeAlong(layout, regions, h + t, s) <==>
            SafeAlong(layout, regions, h, s) && SafeAlong(layout, regions, t, Exec(|layout|, regions, h, s))
  {
    WellFormedConcat(|layout|, regions, h, t);
    if h == [] {
      assert h + t == t;
      if SafeAlong(layout, regions, t, s) {
        assert SafeAfter(layout, regions, t, s, 0);
        assert t[..0] == [];
      }
    } else {
      assert (h + t)[1..] == h[1..] + t;
      SafeAlongSplit(layout, regions, h[1..], t, Effect(|layout|, regions, h[0], s));
      SafeAlongStep(layout, regions, h, s);
      SafeAlongStep(layout, regions, h + t, s);
    }
  }

  lemma {:induction false} TailUnsafeIffAlive(layout: Layout, regions: nat, op: Op, s: State)
    requires LayoutOk(regions, layout) && WellFormedOp(|layout|, regions, op) && TooDeep(layout, op)
    requires PointersOk(|layout|, s.ptr) && PointersShallow(layout, s.ptr)
    ensures StraightLine(|layout|, regions, [op, Exit(layout[op.b])])
    ensures SafeAlong(layout, regions, [op, Exit(layout[op.b])], s) <==> !Alive(layout[op.a], s.dead)
  {
    var tail := [op, Exit(layout[op.b])];
    assert tail[1..] == [Exit(layout[op.b])] && tail[1..][1..] == [];
    StraightLineSnoc(|layout|, regions, [], op);
    StraightLineSnoc(|layout|, regions, [op], Exit(layout[op.b]));
    assert [] + [op] == [op] && [op] + [Exit(layout[op.b])] == tail;
    StraightLineConcat(|layout|, regions, [op], tail[1..]);
    var s1 := Effect(|layout|, regions, op, s);
    var s2 := Effect(|layout|, regions, tail[1], s1);
    SafeAlongStep(layout, regions, tail, s);
    SafeAlongStep(layout, regions, tail[1..], s1);
    assert SafeAlong(layout, regions, [], s2) <==> SafeState(layout, s2.ptr, s2.dead) by {
      assert SafeAlong(layout, regions, [], s2) ==> SafeAfter(layout, regions, [], s2, 0);
    }
    PointersShallowIsSafe(layout, s.ptr, s.dead);
    ExitKillsDeeper(regions, layout[op.b], layout[op.a], s.dead);
    ExitKillsDeeper(regions, layout[op.b], layout[op.b], s.dead);
    OnlyHolderMatters(layout, op, s, s1.dead);
    OnlyHolderMatters(layout, op, s, s2.dead);
  }

  /** After the rejected store, the holder's is the only pointer that can dangle. */
  lemma {:induction false} OnlyHolderMatters(layout: Layout, op: Op, s: State, dead: set<Region>)
    requires PointersOk(|layout|, s.ptr) && PointersShallow(layout, s.ptr) && TooDeep(layout, op)
    ensures var ptr := s.ptr[op.a := Some(op.b)];
            SafeState(layout, ptr, dead) <==> (Alive(layout[op.a], dead) ==> Alive(layout[op.b], dead))
  {
    var ptr := s.ptr[op.a := Some(op.b)];
    PointersShallowIsSafe(layout, s.ptr, dead);
    if SafeState(layout, ptr, dead) {
      assert ptr[op.a].Some?;
    }
  }

  /** The exit that completes the twin comes after the rejection, so the checks are the same. */
  lemma {:induction false} CandidateShowsTheSameChecks(layout: Layout, regions: nat, pre: seq<Op>, op: Op, x: Op)
    requires StraightLine(|layout|, regions, pre + [op]) && StraightLine(|layout|, regions, pre + [op, x])
    requires TooDeep(layout, op)
    ensures !Accepted(layout, regions, pre + [op])
    ensures Analyze(layout, regions, pre + [op, x]) == Analyze(layout, regions, pre + [op])
  {
    if pre == [] {
      assert [] + [op] == [op] && [] + [op, x] == [op, x];
      assert !AnalyzeOp(layout, regions, [op][0]).ok && [op, x][0] == op;
    } else {
      assert (pre + [op])[1..] == pre[1..] + [op] && (pre + [op, x])[1..] == pre[1..] + [op, x];
      assert (pre + [op])[0] == pre[0] == (pre + [op, x])[0];
      StraightLineConcat(|layout|, regions, [pre[0]], pre[1..] + [op]);
      StraightLineConcat(|layout|, regions, [pre[0]], pre[1..] + [op, x]);
      assert [pre[0]] + (pre[1..] + [op]) == pre + [op] && [pre[0]] + (pre[1..] + [op, x]) == pre + [op, x];
      CandidateShowsTheSameChecks(layout, regions, pre[1..], op, x);
    }
  }

  /** Some path of `ops`, entered after `pre`, rejects a store whose holder is alive. */
  ghost predicate SomeRejectsAlive(layout: Layout, regions: nat, pre: seq<Op>, ops: seq<Op>) {
    exists q: seq<Op>, k: nat :: q in Paths(ops) && RejectsAlive(layout, regions, pre + q, k)
  }

  /** `twin` comes from such a path: cut right after the rejected store and followed by the pointee's exit. */
  ghost predicate TwinOf(layout: Layout, regions: nat, pre: seq<Op>, ops: seq<Op>, twin: seq<Op>) {
    exists q: seq<Op>, k: nat :: q in Paths(ops) && RejectsAlive(layout, regions, pre + q, k)
                   && twin == Candidate(layout, (pre + q)[..k], (pre + q)[k])
  }

  lemma {:induction false} WalkFindsTwin(layout: Layout, regions: nat, pre: seq<Op>, ops: seq<Op>)
    requires LayoutOk(regions, layout) && StraightLine(|layout|, regions, pre) && ShallowStores(layout, pre)
    requires WellFormed(|layout|, regions, ops) && CopyFree(ops)
    ensures Walk(layout, regions, pre, ops).Some? <==> SomeRejectsAlive(layout, regions, pre, ops)
    ensures Walk(layout, regions, pre, ops).Some? ==>
              TwinOf(layout, regions, pre, ops, Walk(layout, regions, pre, ops).value)
    decreases Size(ops)
  {
    if ops == [] {
      forall q, k: nat | q in Paths(ops) ensures !RejectsAlive(layout, regions, pre + q, k) {
        assert pre + q == pre;
      }
    } else {
      var op, rest := ops[0], ops[1..];
      assert WellFormedOp(|layout|, regions, op) && CopyFreeOp(op);
      if op.Ite? {
        BranchSplices(|layout|, regions, ops);
        BranchesCopyFree(ops);
        WalkFindsTwin(layout, regions, pre, op.thn + rest);
        WalkFindsTwin(layout, regions, pre, op.els + rest);
        WalkBothBranches(layout, regions, pre, ops);
      } else if TooDeep(layout, op) {
        WalkAtRejection(layout, regions, pre, ops);
      } else {
        StraightLineSnoc(|layout|, regions, pre, op);
        ShallowConcat(layout, pre, [op]);
        WalkFindsTwin(layout, regions, pre + [op], rest);
        WalkPastShallow(layout, regions, pre, ops);
      }
    }
  }

  /** `more` has all the paths of `fewer`, and so all that is found on them. */
  lemma {:induction false} FoundOnMorePaths(layout: Layout, regions: nat, pre: seq<Op>, fewer: seq<Op>, more: seq<Op>)
    requires forall q | q in Paths(fewer) :: q in Paths(more)
    ensures SomeRejectsAlive(layout, regions, pre, fewer) ==> SomeRejectsAlive(layout, regions, pre, more)
    ensures forall twin :: TwinOf(layout, regions, pre, fewer, twin) ==> TwinOf(layout, regions, pre, more, twin)
  {
  }

  lemma {:induction false} WalkBothBranches(layout: Layout, regions: nat, pre: seq<Op>, ops: seq<Op>)
    requires ops != [] && ops[0].Ite?
    ensures SomeRejectsAlive(layout, regions, pre, ops) <==>
            || SomeRejectsAlive(layout, regions, pre, ops[0].thn + ops[1..])
            || SomeRejectsAlive(layout, regions, pre, ops[0].els + ops[1..])
    ensures forall twin :: TwinOf(layout, regions, pre, ops[0].thn + ops[1..], twin) ==>
              TwinOf(layout, regions, pre, ops, twin)
    ensures forall twin :: TwinOf(layout, regions, pre, ops[0].els + ops[1..], twin) ==>
              TwinOf(layout, regions, pre, ops, twin)
  {
    var t, e := ops[0].thn + ops[1..], ops[0].els + ops[1..];
    BranchPaths(ops);
    FoundOnMorePaths(layout, regions, pre, t, ops);
    FoundOnMorePaths(layout, regions, pre, e, ops);
  }

  lemma {:induction false} WalkPastShallow(layout: Layout, regions: nat, pre: seq<Op>, ops: seq<Op>)
    requires ops != [] && !ops[0].Ite?
    ensures SomeRejectsAlive(layout, regions, pre, ops) <==> SomeRejectsAlive(layout, regions, pre + [ops[0]], ops[1..])
    ensures forall twin :: TwinOf(layout, regions, pre + [ops[0]], ops[1..], twin) ==>
              TwinOf(layout, regions, pre, ops, twin)
  {
    forall t | t in Paths(ops[1..])
      ensures [ops[0]] + t in Paths(ops) && pre + ([ops[0]] + t) == pre + [ops[0]] + t
    {
      StepPaths(ops, [ops[0]] + t);
      assert ([ops[0]] + t)[1..] == t;
    }
    forall q | q in Paths(ops)
      ensures q != [] && q[1..] in Paths(ops[1..]) && pre + q == pre + [ops[0]] + q[1..]
    {
      StepPaths(ops, q);
    }
  }

  lemma {:induction false} WalkAtRejection(layout: Layout, regions: nat, pre: seq<Op>, ops: seq<Op>)
    requires LayoutOk(regions, layout) && StraightLine(|layout|, regions, pre) && ShallowStores(layout, pre)
    requires WellFormed(|layout|, regions, ops) && CopyFree(ops) && ops != [] && TooDeep(layout, ops[0])
    ensures Walk(layout, regions, pre, ops).Some? <==> SomeRejectsAlive(layout, regions, pre, ops)
    ensures Walk(layout, regions, pre, ops).Some? ==>
              TwinOf(layout, regions, pre, ops, Walk(layout, regions, pre, ops).value)
  {
    var op, rest := ops[0], ops[1..];
    assert WellFormedOp(|layout|, regions, op);
    CandidateShape(layout, regions, pre, op);
    CandidateShowsTheSameChecks(layout, regions, pre, op, Exit(layout[op.b]));
    CandidateUnsafeIffAlive(layout, regions, pre, op);
    forall q, k: nat | q in Paths(ops)
      ensures RejectsAlive(layout, regions, pre + q, k) ==>
                k == |pre| && Alive(layout[op.a], Exec(|layout|, regions, pre, Start(layout)).dead)
    {
      StepPaths(ops, q);
      var p := pre + q;
      assert p[|pre|] == op && p[..|pre|] == pre;
      if k < |pre| {
        assert p[k] == pre[k];
      } else if |pre| < k < |p| {
        assert p[..k][|pre|] == op;
        assert !ShallowStores(layout, p[..k]);
      }
    }
    if Alive(layout[op.a], Exec(|layout|, regions, pre, Start(layout)).dead) {
      var q := SomePath(ops);
      StepPaths(ops, q);
      var p := pre + q;
      assert p[|pre|] == op && p[..|pre|] == pre;
      PathsAreStraight(|layout|, regions, ops, q);
      CopyFreePaths(ops, q);
      StraightLineConcat(|layout|, regions, pre, q);
      assert RejectsAlive(layout, regions, p, |pre|);
    }
  }

  lemma {:induction false} CopyFreePaths(ops: seq<Op>, p: seq<Op>)
    requires CopyFree(ops) && p in Paths(ops)
    ensures CopyFree(p)
    decreases ops
  {
    if ops != [] {
      var h, t :| h in PathsOp(ops[0]) && t in Paths(ops[1..]) && p == h + t;
      CopyFreePaths(ops[1..], t);
      assert CopyFreeOp(ops[0]);
      if ops[0].Ite? {
        if h in Paths(ops[0].thn) {
          CopyFreePaths(ops[0].thn, h);
        } else {
          CopyFreePaths(ops[0].els, h);
        }
      } else {
        assert h[1..] == [];
      }
      CopyFreeConcat(h, t);
    }
  }

  // ---------------------------------------------------------------- forced losses

  /**
   Exactly when the search succeeds: some path's first rejected store has a holder whose region
   is still alive.
   */
  lemma {:induction false} TwinExistsIff(layout: Layout, regions: nat, body: seq<Op>)
    requires LayoutOk(regions, layout) && WellFormed(|layout|, regions, body) && CopyFree(body)
    ensures ForcedTwin(layout, regions, body).Some? <==>
            exists p: seq<Op>, k: nat :: p in Paths(body) && RejectsAlive(layout, regions, p, k)
  {
    WalkFindsTwin(layout, regions, [], body);
    if SomeRejectsAlive(layout, regions, [], body) {
      var q: seq<Op>, k: nat :| q in Paths(body) && RejectsAlive(layout, regions, [] + q, k);
      assert [] + q == q;
    }
    if exists p: seq<Op>, k: nat :: p in Paths(body) && RejectsAlive(layout, regions, p, k) {
      var p: seq<Op>, k: nat :| p in Paths(body) && RejectsAlive(layout, regions, p, k);
      assert [] + p == p;
    }
  }

  /**
   What a twin proves: it extends a path prefix the checker rejects, shows the checker the very
   same checks, is rejected too, and is unsafe when run.
   */
  lemma {:induction false} TwinIsForced(layout: Layout, regions: nat, body: seq<Op>) returns (prefix: seq<Op>, exit: Op)
    requires LayoutOk(regions, layout) && WellFormed(|layout|, regions, body) && CopyFree(body)
    requires ForcedTwin(layout, regions, body).Some?
    ensures exists p :: p in Paths(body) && prefix <= p
    ensures ForcedTwin(layout, regions, body).value == prefix + [exit] && exit.Exit?
    ensures StraightLine(|layout|, regions, prefix) && StraightLine(|layout|, regions, prefix + [exit])
    ensures CheckTrace(layout, regions, prefix + [exit]) == CheckTrace(layout, regions, prefix)
    ensures !Accepted(layout, regions, prefix) && !Accepted(layout, regions, prefix + [exit])
    ensures !ConcretelySafe(layout, regions, prefix + [exit])
  {
    WalkFindsTwin(layout, regions, [], body);
    var q: seq<Op>, k: nat :| q in Paths(body) && RejectsAlive(layout, regions, [] + q, k)
                && ForcedTwin(layout, regions, body).value == Candidate(layout, ([] + q)[..k], ([] + q)[k]);
    assert [] + q == q;
    prefix, exit := TwinOfRejection(layout, regions, q, k);
  }

  lemma {:induction false} TwinOfRejection(layout: Layout, regions: nat, q: seq<Op>,
          k: nat) returns (prefix: seq<Op>, exit: Op)
    requires LayoutOk(regions, layout) && RejectsAlive(layout, regions, q, k)
    ensures prefix <= q && Candidate(layout, q[..k], q[k]) == prefix + [exit] && exit.Exit?
    ensures StraightLine(|layout|, regions, prefix) && StraightLine(|layout|, regions, prefix + [exit])
    ensures CheckTrace(layout, regions, prefix + [exit]) == CheckTrace(layout, regions, prefix)
    ensures !Accepted(layout, regions, prefix) && !Accepted(layout, regions, prefix + [exit])
    ensures !ConcretelySafe(layout, regions, prefix + [exit])
  {
    var pre, op := q[..k], q[k];
    prefix, exit := pre + [op], Exit(layout[op.b]);
    assert q == prefix + q[k + 1..];
    StraightLineConcat(|layout|, regions, prefix, q[k + 1..]);
    StraightLineConcat(|layout|, regions, pre, [op]);
    assert WellFormedOp(|layout|, regions, op) by { assert [op][0] == op; }
    CandidateShape(layout, regions, pre, op);
    assert prefix + [exit] == pre + [op, exit];
    CandidateShowsTheSameChecks(layout, regions, pre, op, exit);
    CandidateUnsafeIffAlive(layout, regions, pre, op);
  }

  lemma {:induction false} WellScopedHoldersAlive(layout: Layout, regions: nat, ops: seq<Op>, s: State, p: seq<Op>,
          k: nat)
    requires WellFormed(|layout|, regions, ops) && CopyFree(ops) && PointersOk(|layout|, s.ptr)
    requires WellScoped(layout, regions, ops, s.dead) && p in Paths(ops) && k < |p| && p[k].Store?
    requires StraightLine(|layout|, regions, p) && StraightLine(|layout|, regions, p[..k])
    ensures p[k].a < |layout| && Alive(layout[p[k].a], Exec(|layout|, regions, p[..k], s).dead)
    decreases Size(ops)
  {
    if ops != [] {
      var op, rest := ops[0], ops[1..];
      assert WellFormedOp(|layout|, regions, op) && CopyFreeOp(op);
      if op.Ite? {
        BranchSplices(|layout|, regions, ops);
        BranchesCopyFree(ops);
        BranchPaths(ops);
        if p in Paths(op.thn + rest) {
          WellScopedHoldersAlive(layout, regions, op.thn + rest, s, p, k);
        } else {
          WellScopedHoldersAlive(layout, regions, op.els + rest, s, p, k);
        }
      } else {
        StepPaths(ops, p);
        if k > 0 {
          assert p[..k][0] == op && p[..k][1..] == p[1..][..k - 1];
          StraightLineConcat(|layout|, regions, [op], p[1..]);
          StraightLineConcat(|layout|, regions, [op], p[1..][..k - 1]);
          assert p == [op] + p[1..] && p[..k] == [op] + p[1..][..k - 1];
          WellScopedHoldersAlive(layout, regions, rest, Effect(|layout|, regions, op, s), p[1..], k - 1);
        }
      }
    }
  }

  /** For programs the language can express, every rejection is forced. */
  lemma {:induction false} EveryWellScopedRejectionIsForced(layout: Layout, regions: nat, body: seq<Op>)
    requires LayoutOk(regions, layout) && WellFormed(|layout|, regions, body) && CopyFree(body)
    requires WellScoped(layout, regions, body, {})
    ensures ForcedTwin(layout, regions, body).Some? <==> !Accepted(layout, regions, body)
  {
    TwinExistsIff(layout, regions, body);
    AcceptedIffPathsShallow(layout, regions, body);
    if !Accepted(layout, regions, body) {
      var p :| p in Paths(body) && !ShallowStores(layout, p);
      PathsAreStraight(|layout|, regions, body, p);
      CopyFreePaths(body, p);
      var k := FirstRejection(layout, regions, p);
      assert p == p[..k] + p[k..];
      StraightLineConcat(|layout|, regions, p[..k], p[k..]);
      WellScopedHoldersAlive(layout, regions, body, Start(layout), p, k);
      assert RejectsAlive(layout, regions, p, k);
    }
    if exists p: seq<Op>, k: nat :: p in Paths(body) && RejectsAlive(layout, regions, p, k) {
      var p: seq<Op>, k: nat :| p in Paths(body) && RejectsAlive(layout, regions, p, k);
      assert !ShallowStores(layout, p);
    }
  }

  lemma {:induction false} FirstRejection(layout: Layout, regions: nat, p: seq<Op>) returns (k: nat)
    requires StraightLine(|layout|, regions, p) && !ShallowStores(layout, p)
    ensures Rejects(layout, p, k)
  {
    k := 0;
    while k < |p| && !TooDeep(layout, p[k])
      invariant k <= |p|
      invariant ShallowStores(layout, p[..k])
    {
      assert p == p[..k] + p[k..];
      StraightLineConcat(|layout|, regions, p[..k], p[k..]);
      assert p[k..][0] == p[k] && WellFormedOp(|layout|, regions, p[k]);
      ShallowConcat(layout, p[..k], [p[k]]);
      assert p[..k + 1] == p[..k] + [p[k]];
      k := k + 1;
    }
    assert p[..|p|] == p;
  }

  /** Programs whose exits all come at the end are well scoped: the scripts' programs are of this kind. */
  lemma {:induction false} ExitsLastIsWellScoped(layout: Layout, regions: nat, body: seq<Op>, exits: seq<Op>)
    requires WellFormed(|layout|, regions, body + exits)
    requires ExitFree(body) && forall i | 0 <= i < |exits| :: exits[i].Exit?
    ensures WellScoped(layout, regions, body + exits, {})
    decreases Size(body)
  {
    var ops := body + exits;
    if body == [] {
      assert ops == exits;
      OnlyExitsIsWellScoped(layout, regions, exits, {});
    } else {
      assert ops[0] == body[0] && ops[1..] == body[1..] + exits;
      assert WellFormedOp(|layout|, regions, ops[0]);
      if body[0].Ite? {
        BranchSplices(|layout|, regions, ops);
        BranchSplices(|layout|, regions, body);
        assert body[0].thn + ops[1..] == body[0].thn + body[1..] + exits;
        assert body[0].els + ops[1..] == body[0].els + body[1..] + exits;
        assert ExitFreeOp(body[0]);
        ExitFreeConcat(body[0].thn, body[1..]);
        ExitFreeConcat(body[0].els, body[1..]);
        ExitsLastIsWellScoped(layout, regions, body[0].thn + body[1..], exits);
        ExitsLastIsWellScoped(layout, regions, body[0].els + body[1..], exits);
      } else {
        ExitsLastIsWellScoped(layout, regions, body[1..], exits);
      }
    }
  }

  lemma {:induction false} OnlyExitsIsWellScoped(layout: Layout, regions: nat, exits: seq<Op>, dead: set<Region>)
    requires WellFormed(|layout|, regions, exits) && forall i | 0 <= i < |exits| :: exits[i].Exit?
    ensures WellScoped(layout, regions, exits, dead)
  {
    if exits != [] {
      OnlyExitsIsWellScoped(layout, regions, exits[1..], dead + Subtree(regions, exits[0].r));
    }
  }

  predicate ExitFree(ops: seq<Op>) {
    ops == [] || (ExitFreeOp(ops[0]) && ExitFree(ops[1..]))
  }

  predicate ExitFreeOp(op: Op) {
    match op
    case Exit(_) => false
    case Ite(t, e) => ExitFree(t) && ExitFree(e)
    case _ => true
  }

  lemma {:induction false} ExitFreeConcat(xs: seq<Op>, ys: seq<Op>)
    ensures ExitFree(xs + ys) <==> ExitFree(xs) && ExitFree(ys)
  {
    if xs == [] {
      assert xs + ys == ys;
    } else {
      ExitFreeConcat(xs[1..], ys);
      assert (xs + ys)[1..] == xs[1..] + ys;
    }
  }

  // ---------------------------------------------------------------- placements that are accepted are safe

  lemma {:induction false} StoresOfCons(op: Op, ops: seq<Op>)
    ensures StoresOf([op] + ops) == StoresOfOp(op) + StoresOf(ops)
  {
    assert ([op] + ops)[1..] == ops;
  }

  lemma {:induction false} Regroup<T>(a: seq<T>, b: seq<T>, c: seq<T>)
    ensures a + (b + c) == (a + b) + c
  {
  }

  lemma {:induction false} StoresOfConcat(xs: seq<Op>, ys: seq<Op>)
    ensures StoresOf(xs + ys) == StoresOf(xs) + StoresOf(ys)
  {
    if xs == [] {
      assert xs + ys == ys;
    } else {
      var op, rest := xs[0], xs[1..];
      assert xs == [op] + rest;
      Regroup([op], rest, ys);
      StoresOfCons(op, rest + ys);
      StoresOfCons(op, rest);
      StoresOfConcat(rest, ys);
      Regroup(StoresOfOp(op), StoresOf(rest), StoresOf(ys));
    }
  }

  lemma {:induction false} ExitsHaveNoStores(exits: seq<Op>)
    requires forall i | 0 <= i < |exits| :: exits[i].Exit?
    ensures StoresOf(exits) == [] && CopyFree(exits)
  {
    if exits != [] {
      ExitsHaveNoStores(exits[1..]);
    }
  }

  /**
   Whatever order the scopes end in, a placement the model accepts is safe on every path: what
   inference finds is within what a perfect allocator could use.
   */
  lemma {:induction false} AcceptedPlacementIsSafe(layout: Layout, regions: nat, body: seq<Op>, exits: seq<Op>)
    requires WellFormed(|layout|, regions, body) && CopyFree(body) && ModelAccepts(layout, regions, body)
    requires WellFormed(|layout|, regions, exits) && forall i | 0 <= i < |exits| :: exits[i].Exit?
    ensures WellFormed(|layout|, regions, body + exits)
    ensures ConcretelySafe(layout, regions, body + exits)
  {
    WellFormedConcat(|layout|, regions, body, exits);
    CopyFreeConcat(body, exits);
    ExitsHaveNoStores(exits);
    StoresOfConcat(body, exits);
    assert StoresOf(body + exits) == StoresOf(body);
    AcceptedIffStoresMeet(layout, regions, body + exits);
    AcceptedIffDepthsAccepted(layout, regions, body + exits, PathSensitivity.JoinMode);
    PathSensitivity.AcceptedIsSafe(layout, regions, body + exits, PathSensitivity.JoinMode);
  }
}
