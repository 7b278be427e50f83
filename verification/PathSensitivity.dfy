/**
 The depth analysis in its two modes: one that joins branches into one abstract state and
 one that keeps a list of states, one per path.  Both accept the same programs, and what
 they accept is safe on every path.
 */
module PathSensitivity {
  import opened Wrappers
  import opened RegionProgram

  datatype Mode = JoinMode | PathMode

  /** For each cell, the depth of the deepest region its content may point into; None if none. */
  type Abstract = seq<Option<nat>>

  function JoinValue(x: Option<nat>, y: Option<nat>): Option<nat> {
    if y.None? then x
    else if x.None? then y
    else if x.value >= y.value then x else y
  }

  function JoinD(d1: Abstract, d2: Abstract): (d: Abstract)
    requires |d1| == |d2|
    ensures |d| == |d1|
  {
    seq(|d1|, i requires 0 <= i < |d1| => JoinValue(d1[i], d2[i]))
  }

  predicate StatesOk(cells: nat, ds: seq<Abstract>, mode: Mode) {
    && |ds| >= 1
    && (mode.JoinMode? ==> |ds| == 1)
    && forall k | 0 <= k < |ds| :: |ds[k]| == cells
  }

  /** The weak update of cell `a` by `v`, in every state. */
  function Weaken(a: Cell, v: Option<nat>, d: Abstract): (d': Abstract)
    requires a < |d|
    ensures |d'| == |d|
  {
    d[a := JoinValue(d[a], v)]
  }

  function StoreAll(layout: Layout, a: Cell, b: Cell, ds: seq<Abstract>): (ds': seq<Abstract>)
    requires a < |layout| && b < |layout| && forall k | 0 <= k < |ds| :: |ds[k]| == |layout|
    ensures |ds'| == |ds| && forall k | 0 <= k < |ds| :: |ds'[k]| == |layout|
  {
    seq(|ds|, k requires 0 <= k < |ds| => Weaken(a, Some(layout[b]), ds[k]))
  }

  function CopyAll(layout: Layout, a: Cell, c: Cell, ds: seq<Abstract>): (ds': seq<Abstract>)
    requires a < |layout| && c < |layout| && forall k | 0 <= k < |ds| :: |ds[k]| == |layout|
    ensures |ds'| == |ds| && forall k | 0 <= k < |ds| :: |ds'[k]| == |layout|
  {
    seq(|ds|, k requires 0 <= k < |ds| => Weaken(a, ds[k][c], ds[k]))
  }

  predicate CopyAllowed(layout: Layout, a: Cell, c: Cell, d: Abstract)
    requires a < |layout| && c < |d|
  {
    d[c].Some? ==> d[c].value <= layout[a]
  }

  function AnalyzeOp(layout: Layout, regions: nat, op: Op, ds: seq<Abstract>, mode: Mode): (r: Option<seq<Abstract>>)
    requires WellFormedOp(|layout|, regions, op) && StatesOk(|layout|, ds, mode)
    ensures r.Some? ==> StatesOk(|layout|, r.value, mode)
    decreases op
  {
    match op
    case Store(a, b) =>
      if layout[b] > layout[a] then None else Some(StoreAll(layout, a, b, ds))
    case Copy(a, c) =>
      if forall k | 0 <= k < |ds| :: CopyAllowed(layout, a, c, ds[k]) then Some(CopyAll(layout, a, c, ds)) else None
    case Exit(_) => Some(ds)
    case Ite(t, e) =>
      var dt := Analyze(layout, regions, t, ds, mode);
      if dt.None? then None else
      var de := Analyze(layout, regions, e, ds, mode);
      if de.None? then None else
      Some(if mode.PathMode? then dt.value + de.value else [JoinD(dt.value[0], de.value[0])])
  }

  /** `analyze`: None is a rejection, otherwise the abstract states at the end of the program. */
  function Analyze(layout: Layout, regions: nat, ops: seq<Op>, ds: seq<Abstract>,
          mode: Mode): (r: Option<seq<Abstract>>)
    requires WellFormed(|layout|, regions, ops) && StatesOk(|layout|, ds, mode)
    ensures r.Some? ==> StatesOk(|layout|, r.value, mode)
    decreases ops
  {
    if ops == [] then Some(ds) else
    var r1 := AnalyzeOp(layout, regions, ops[0], ds, mode);
    if r1.None? then None else Analyze(layout, regions, ops[1..], r1.value, mode)
  }

  function NothingKnown(cells: nat): (d: Abstract)
    ensures |d| == cells
  {
    seq(cells, _ => None)
  }

  predicate Accepts(layout: Layout, regions: nat, body: seq<Op>, mode: Mode)
    requires WellFormed(|layout|, regions, body)
  {
    Analyze(layout, regions, body, [NothingKnown(|layout|)], mode).Some?
  }

  /** The loop of `analyze`, rebinding the list of states operation by operation. */
  method AnalyzeBody(layout: Layout, regions: nat, body: seq<Op>, ds0: seq<Abstract>, mode: Mode)
    returns (r: Option<seq<Abstract>>)
    requires WellFormed(|layout|, regions, body) && StatesOk(|layout|, ds0, mode)
    ensures r == Analyze(layout, regions, body, ds0, mode)
    decreases body
  {
    var ds := ds0;
    for i := 0 to |body|
      invariant WellFormed(|layout|, regions, body[i..]) && StatesOk(|layout|, ds, mode)
      invariant Analyze(layout, regions, body, ds0, mode) == Analyze(layout, regions, body[i..], ds, mode)
    {
      assert body[i..][1..] == body[i + 1..];
      var op := body[i];
      match op {
        case Store(a, b) =>
          if layout[b] > layout[a] {
            return None;
          }
          ds := seq(|ds|, k requires 0 <= k < |ds| => Weaken(a, Some(layout[b]), ds[k]));
        case Copy(a, c) =>
          for k := 0 to |ds|
            invariant forall j | 0 <= j < k :: CopyAllowed(layout, a, c, ds[j])
          {
            if ds[k][c].Some? && ds[k][c].value > layout[a] {
              assert !CopyAllowed(layout, a, c, ds[k]);
              return None;
            }
          }
          ds := seq(|ds|, k requires 0 <= k < |ds| => Weaken(a, ds[k][c], ds[k]));
        case Exit(_) =>
        case Ite(t, e) =>
          var dt := AnalyzeBody(layout, regions, t, ds, mode);
          if dt.None? {
            return None;
          }
          var de := AnalyzeBody(layout, regions, e, ds, mode);
          if de.None? {
            return None;
          }
          ds := if mode.PathMode? then dt.value + de.value else [JoinD(dt.value[0], de.value[0])];
      }
    }
    r := Some(ds);
  }

  // ---------------------------------------------------------------- join mode and path mode agree

  /** `v` is the pointwise join (None at the bottom) of what the states know about cell `c`. */
  ghost predicate IsJoinAt(ds: seq<Abstract>, c: Cell, v: Option<nat>)
    requires forall k | 0 <= k < |ds| :: c < |ds[k]|
  {
    && (v.None? ==> forall k | 0 <= k < |ds| :: ds[k][c].None?)
    && (v.Some? ==>
          && (forall k | 0 <= k < |ds| :: ds[k][c].Some? ==> ds[k][c].value <= v.value)
          && exists k | 0 <= k < |ds| :: ds[k][c] == v)
  }

  ghost predicate IsJoin(cells: nat, ds: seq<Abstract>, j: Abstract) {
    && |j| == cells
    && (forall k | 0 <= k < |ds| :: |ds[k]| == cells)
    && forall c | 0 <= c < cells :: IsJoinAt(ds, c, j[c])
  }

  lemma {:induction false} JoinOfStore(layout: Layout, a: Cell, b: Cell, ds: seq<Abstract>, j: Abstract)
    requires a < |layout| && b < |layout|
    requires |ds| >= 1 && IsJoin(|layout|, ds, j)
    ensures IsJoin(|layout|, StoreAll(layout, a, b, ds), Weaken(a, Some(layout[b]), j))
  {
    var ds' := StoreAll(layout, a, b, ds);
    var j' := Weaken(a, Some(layout[b]), j);
    forall c | 0 <= c < |layout|
      ensures IsJoinAt(ds', c, j'[c])
    {
      assert IsJoinAt(ds, c, j[c]);
      var k := if j[c].Some? then var k :| 0 <= k < |ds| && ds[k][c] == j[c]; k else 0;
      assert ds'[k][c] == j'[c];
    }
  }

  lemma {:induction false} JoinOfCopy(layout: Layout, a: Cell, b: Cell, ds: seq<Abstract>, j: Abstract)
    requires a < |layout| && b < |layout|
    requires |ds| >= 1 && IsJoin(|layout|, ds, j)
    ensures IsJoin(|layout|, CopyAll(layout, a, b, ds), Weaken(a, j[b], j))
  {
    var ds' := CopyAll(layout, a, b, ds);
    var j' := Weaken(a, j[b], j);
    assert IsJoinAt(ds, a, j[a]) && IsJoinAt(ds, b, j[b]);
    forall c | 0 <= c < |layout|
      ensures IsJoinAt(ds', c, j'[c])
    {
      assert IsJoinAt(ds, c, j[c]);
      if j'[c].Some? {
        // the witness is the state that attains whichever side of the join is larger
        var w := if c != a || j'[a] == j[a] then c else b;
        assert IsJoinAt(ds, w, j[w]);
        var k :| 0 <= k < |ds| && ds[k][w] == j[w];
        assert ds'[k][c] == j'[c];
      }
    }
  }

  lemma {:induction false} CopyCheckReadsJoin(layout: Layout, a: Cell, c: Cell, ds: seq<Abstract>, j: Abstract)
    requires a < |layout| && c < |layout| && IsJoin(|layout|, ds, j)
    ensures CopyAllowed(layout, a, c, j) <==> forall k | 0 <= k < |ds| :: CopyAllowed(layout, a, c, ds[k])
  {
    assert IsJoinAt(ds, c, j[c]);
  }

  lemma {:induction false} JoinOfConcat(cells: nat, d1: seq<Abstract>, d2: seq<Abstract>, j1: Abstract, j2: Abstract)
    requires IsJoin(cells, d1, j1) && IsJoin(cells, d2, j2)
    ensures IsJoin(cells, d1 + d2, JoinD(j1, j2))
  {
    var j := JoinD(j1, j2);
    forall c | 0 <= c < cells
      ensures IsJoinAt(d1 + d2, c, j[c])
    {
      assert IsJoinAt(d1, c, j1[c]) && IsJoinAt(d2, c, j2[c]);
      if j[c].Some? {
        if j[c] == j1[c] {
          var k :| 0 <= k < |d1| && d1[k][c] == j1[c];
          assert (d1 + d2)[k][c] == j[c];
        } else {
          var k :| 0 <= k < |d2| && d2[k][c] == j2[c];
          assert (d1 + d2)[|d1| + k][c] == j[c];
        }
      }
    }
  }

  /**
   At every program point the joined state is the pointwise join of the path states, and the
   two modes reject at the same point.
   */
  lemma {:induction false} JoinTracksPaths(layout: Layout, regions: nat, ops: seq<Op>, ds: seq<Abstract>, j: Abstract)
    requires WellFormed(|layout|, regions, ops)
    requires StatesOk(|layout|, ds, PathMode) && IsJoin(|layout|, ds, j)
    ensures Analyze(layout, regions, ops, ds, PathMode).Some? <==> Analyze(layout, regions, ops, [j], JoinMode).Some?
    ensures Analyze(layout, regions, ops, ds, PathMode).Some? ==>
              IsJoin(|layout|, Analyze(layout, regions, ops, ds, PathMode).value,
                Analyze(layout, regions, ops, [j], JoinMode).value[0])
    decreases ops, 1
  {
    if ops != [] {
      JoinTracksPathsOp(layout, regions, ops[0], ds, j);
      var rp := AnalyzeOp(layout, regions, ops[0], ds, PathMode);
      var rj := AnalyzeOp(layout, regions, ops[0], [j], JoinMode);
      if rp.Some? {
        assert rj.value == [rj.value[0]];
        JoinTracksPaths(layout, regions, ops[1..], rp.value, rj.value[0]);
      }
    }
  }

  lemma {:induction false} JoinTracksPathsOp(layout: Layout, regions: nat, op: Op, ds: seq<Abstract>, j: Abstract)
    requires WellFormedOp(|layout|, regions, op)
    requires StatesOk(|layout|, ds, PathMode) && IsJoin(|layout|, ds, j)
    ensures AnalyzeOp(layout, regions, op, ds, PathMode).Some? <==> AnalyzeOp(layout, regions, op, [j], JoinMode).Some?
    ensures AnalyzeOp(layout, regions, op, ds, PathMode).Some? ==>
              IsJoin(|layout|, AnalyzeOp(layout, regions, op, ds, PathMode).value,
                AnalyzeOp(layout, regions, op, [j], JoinMode).value[0])
    decreases op, 0
  {
    match op
    case Store(a, b) => JoinOfStore(layout, a, b, ds, j);
    case Copy(a, c) =>
      CopyCheckReadsJoin(layout, a, c, ds, j);
      assert [j][0] == j;
      JoinOfCopy(layout, a, c, ds, j);
    case Exit(_) =>
    case Ite(t, e) =>
      JoinTracksPaths(layout, regions, t, ds, j);
      JoinTracksPaths(layout, regions, e, ds, j);
      var dt := Analyze(layout, regions, t, ds, PathMode);
      var de := Analyze(layout, regions, e, ds, PathMode);
      if dt.Some? && de.Some? {
        JoinOfConcat(|layout|, dt.value, de.value,
                     Analyze(layout, regions, t, [j], JoinMode).value[0],
                     Analyze(layout, regions, e, [j], JoinMode).value[0]);
      }
  }

  /** Path sensitivity does not change what the checker accepts. */
  lemma {:induction false} ModesAgree(layout: Layout, regions: nat, body: seq<Op>)
    requires WellFormed(|layout|, regions, body)
    ensures Accepts(layout, regions, body, JoinMode) <==> Accepts(layout, regions, body, PathMode)
  {
    var d := NothingKnown(|layout|);
    assert IsJoin(|layout|, [d], d) by {
      forall c | 0 <= c < |layout| ensures IsJoinAt([d], c, d[c]) {}
    }
    JoinTracksPaths(layout, regions, body, [d], d);
  }

  // ---------------------------------------------------------------- soundness

  /** The abstract state bounds the depth of every pointer. */
  ghost predicate Covers(layout: Layout, d: Abstract, ptr: Pointers)
    requires PointersOk(|layout|, ptr) && |d| == |layout|
  {
    forall a | 0 <= a < |ptr| && ptr[a].Some? :: d[a].Some? && layout[ptr[a].value] <= d[a].value
  }

  /** No cell is recorded as reaching deeper than its own region. */
  ghost predicate Bounded(layout: Layout, d: Abstract)
    requires |d| == |layout|
  {
    forall a | 0 <= a < |d| && d[a].Some? :: d[a].value <= layout[a]
  }

  /** A bounded abstract state rules out dangling whatever regions have died. */
  lemma {:induction false} BoundedIsSafe(layout: Layout, d: Abstract, ptr: Pointers, dead: set<Region>)
    requires PointersOk(|layout|, ptr) && |d| == |layout|
    requires Covers(layout, d, ptr) && Bounded(layout, d)
    ensures SafeState(layout, ptr, dead)
  {
    forall a | 0 <= a < |ptr| && ptr[a].Some? && Alive(layout[a], dead)
      ensures Alive(layout[ptr[a].value], dead)
    {
      ShallowerOutlives(layout[a], layout[ptr[a].value], dead);
    }
  }

  lemma {:induction false} ExecConcat(layout: Layout, regions: nat, h: seq<Op>, t: seq<Op>, s: State)
    requires Straight(h) && Straight(t) && WellFormed(|layout|, regions, h) && WellFormed(|layout|, regions, t)
    requires PointersOk(|layout|, s.ptr)
    ensures WellFormed(|layout|, regions, h + t)
    ensures Exec(|layout|, regions, h + t, s) == Exec(|layout|, regions, t, Exec(|layout|, regions, h, s))
    ensures SafeAlong(layout, regions, h, s) && SafeAlong(layout, regions, t, Exec(|layout|, regions, h, s)) ==>
              SafeAlong(layout, regions, h + t, s)
  {
    WellFormedConcat(|layout|, regions, h, t);
    if h == [] {
      assert h + t == t;
    } else {
      assert (h + t)[1..] == h[1..] + t;
      ExecConcat(layout, regions, h[1..], t, Effect(|layout|, regions, h[0], s));
      SafeAlongStep(layout, regions, h, s);
      SafeAlongStep(layout, regions, h + t, s);
    }
  }

  /** Along path `p` every state is safe and `d` covers the state it ends in. */
  ghost predicate PathSound(layout: Layout, regions: nat, p: seq<Op>, s: State, d: Abstract)
    requires PointersOk(|layout|, s.ptr) && |d| == |layout|
  {
    && Straight(p) && WellFormed(|layout|, regions, p)
    && SafeAlong(layout, regions, p, s)
    && Covers(layout, d, Exec(|layout|, regions, p, s).ptr)
  }

  lemma {:induction false} JoinIsSound(layout: Layout, regions: nat, ops: seq<Op>, d: Abstract, s: State, p: seq<Op>)
    requires WellFormed(|layout|, regions, ops) && PointersOk(|layout|, s.ptr) && |d| == |layout|
    requires Covers(layout, d, s.ptr) && Bounded(layout, d)
    requires Analyze(layout, regions, ops, [d], JoinMode).Some? && p in Paths(ops)
    ensures Bounded(layout, Analyze(layout, regions, ops, [d], JoinMode).value[0])
    ensures PathSound(layout, regions, p, s, Analyze(layout, regions, ops, [d], JoinMode).value[0])
    decreases ops, 1
  {
    PathsAreStraight(|layout|, regions, ops, p);
    if ops == [] {
      BoundedIsSafe(layout, d, s.ptr, s.dead);
    } else {
      var h, t :| h in PathsOp(ops[0]) && t in Paths(ops[1..]) && p == h + t;
      JoinIsSoundOp(layout, regions, ops[0], d, s, h);
      var mid := AnalyzeOp(layout, regions, ops[0], [d], JoinMode).value;
      assert mid == [mid[0]];
      var s' := Exec(|layout|, regions, h, s);
      JoinIsSound(layout, regions, ops[1..], mid[0], s', t);
      ExecConcat(layout, regions, h, t, s);
    }
  }

  lemma {:induction false} JoinIsSoundOp(layout: Layout, regions: nat, op: Op, d: Abstract, s: State, p: seq<Op>)
    requires WellFormedOp(|layout|, regions, op) && PointersOk(|layout|, s.ptr) && |d| == |layout|
    requires Covers(layout, d, s.ptr) && Bounded(layout, d)
    requires AnalyzeOp(layout, regions, op, [d], JoinMode).Some? && p in PathsOp(op)
    ensures Bounded(layout, AnalyzeOp(layout, regions, op, [d], JoinMode).value[0])
    ensures PathSound(layout, regions, p, s, AnalyzeOp(layout, regions, op, [d], JoinMode).value[0])
    decreases op, 0
  {
    if op.Ite? {
      // a branch not taken still bounds the joined state
      var pt := SomePath(op.thn);
      var pe := SomePath(op.els);
      JoinIsSound(layout, regions, op.thn, d, s, if p in Paths(op.thn) then p else pt);
      JoinIsSound(layout, regions, op.els, d, s, if p in Paths(op.els) then p else pe);
      JoinCoversBoth(layout, regions, p, s, Analyze(layout, regions, op.thn, [d], JoinMode).value[0],
                     Analyze(layout, regions, op.els, [d], JoinMode).value[0]);
    } else {
      assert [d][0] == d;
      BasicIsSound(layout, regions, op, d, s);
      assert p == [op];
    }
  }

  lemma {:induction false} JoinCoversBoth(layout: Layout, regions: nat, p: seq<Op>, s: State, dt: Abstract,
          de: Abstract)
    requires PointersOk(|layout|, s.ptr) && |dt| == |de| == |layout|
    requires Bounded(layout, dt) && Bounded(layout, de)
    requires PathSound(layout, regions, p, s, dt) || PathSound(layout, regions, p, s, de)
    ensures Bounded(layout, JoinD(dt, de)) && PathSound(layout, regions, p, s, JoinD(dt, de))
  {
  }

  lemma {:induction false} BasicIsSound(layout: Layout, regions: nat, op: Op, d: Abstract, s: State)
    requires WellFormedOp(|layout|, regions, op) && PointersOk(|layout|, s.ptr) && |d| == |layout| && !op.Ite?
    requires Covers(layout, d, s.ptr) && Bounded(layout, d)
    requires AnalyzeOp(layout, regions, op, [d], JoinMode).Some?
    ensures Bounded(layout, AnalyzeOp(layout, regions, op, [d], JoinMode).value[0])
    ensures PathSound(layout, regions, [op], s, AnalyzeOp(layout, regions, op, [d], JoinMode).value[0])
  {
    var d' := AnalyzeOp(layout, regions, op, [d], JoinMode).value[0];
    if op.Copy? {
      assert CopyAllowed(layout, op.a, op.c, [d][0]);
    }
    var s' := Effect(|layout|, regions, op, s);
    assert Covers(layout, d', s'.ptr) && Bounded(layout, d');
    BoundedIsSafe(layout, d, s.ptr, s.dead);
    BoundedIsSafe(layout, d', s'.ptr, s'.dead);
    assert [op][1..] == [] && Straight([op]) && WellFormed(|layout|, regions, [op]);
    SafeAlongStep(layout, regions, [op], s);
  }

  /** Checker soundness: an accepted program never lets a live cell point into a dead region. */
  lemma {:induction false} AcceptedIsSafe(layout: Layout, regions: nat, body: seq<Op>, mode: Mode)
    requires WellFormed(|layout|, regions, body) && Accepts(layout, regions, body, mode)
    ensures SafeEverywhere(layout, regions, body, Start(layout))
    ensures ConcretelySafe(layout, regions, body)
  {
    ModesAgree(layout, regions, body);
    var d, s := NothingKnown(|layout|), Start(layout);
    forall p | p in Paths(body)
      ensures Straight(p) && WellFormed(|layout|, regions, p) && SafeAlong(layout, regions, p, s)
    {
      JoinIsSound(layout, regions, body, d, s, p);
    }
    RunMeansSafeEverywhere(layout, regions, body, s);
  }

  // ---------------------------------------------------------------- acceptance is decided path by path

  lemma {:induction false} AnalyzeConcat(layout: Layout, regions: nat, xs: seq<Op>, ys: seq<Op>, ds: seq<Abstract>,
          mode: Mode)
    requires WellFormed(|layout|, regions, xs) && WellFormed(|layout|, regions, ys) && StatesOk(|layout|, ds, mode)
    ensures WellFormed(|layout|, regions, xs + ys)
    ensures var r := Analyze(layout, regions, xs, ds, mode);
            Analyze(layout, regions, xs + ys, ds, mode) ==
            if r.None? then None else Analyze(layout, regions, ys, r.value, mode)
  {
    WellFormedConcat(|layout|, regions, xs, ys);
    if xs == [] {
      assert xs + ys == ys;
    } else {
      assert (xs + ys)[1..] == xs[1..] + ys;
      var r1 := AnalyzeOp(layout, regions, xs[0], ds, mode);
      if r1.Some? {
        AnalyzeConcat(layout, regions, xs[1..], ys, r1.value, mode);
      }
    }
  }

  /** A path on its own is accepted from one abstract state. */
  ghost predicate PathOk(layout: Layout, regions: nat, p: seq<Op>, d: Abstract) {
    && Straight(p) && WellFormed(|layout|, regions, p) && |d| == |layout|
    && Analyze(layout, regions, p, [d], PathMode).Some?
  }

  ghost function PathState(layout: Layout, regions: nat, p: seq<Op>, d: Abstract): Abstract
    requires PathOk(layout, regions, p, d)
  {
    Analyze(layout, regions, p, [d], PathMode).value[0]
  }

  lemma {:induction false} StraightKeepsOneState(layout: Layout, regions: nat, p: seq<Op>, d: Abstract, mode: Mode)
    requires Straight(p) && WellFormed(|layout|, regions, p) && |d| == |layout|
    ensures Analyze(layout, regions, p, [d], PathMode) == Analyze(layout, regions, p, [d], mode)
    ensures Analyze(layout, regions, p, [d], PathMode).Some? ==> |Analyze(layout, regions, p, [d], PathMode).value| == 1
  {
    if p != [] {
      var r := AnalyzeOp(layout, regions, p[0], [d], PathMode);
      if r.Some? {
        assert r.value == [r.value[0]];
        StraightKeepsOneState(layout, regions, p[1..], r.value[0], mode);
      }
    }
  }

  lemma {:induction false} PathOkConcat(layout: Layout, regions: nat, h: seq<Op>, t: seq<Op>, d: Abstract)
    requires Straight(h) && Straight(t) && WellFormed(|layout|, regions, h) && WellFormed(|layout|, regions, t)
    requires |d| == |layout|
    ensures PathOk(layout, regions, h + t, d) <==>
            PathOk(layout, regions, h, d) && PathOk(layout, regions, t, PathState(layout, regions, h, d))
    ensures PathOk(layout, regions, h + t, d) ==>
              PathState(layout, regions, h + t, d) == PathState(layout, regions, t, PathState(layout, regions, h, d))
  {
    AnalyzeConcat(layout, regions, h, t, [d], PathMode);
    StraightKeepsOneState(layout, regions, h, d, PathMode);
    if PathOk(layout, regions, h, d) {
      assert Analyze(layout, regions, h, [d], PathMode).value == [PathState(layout, regions, h, d)];
    }
  }

  /** All the paths are accepted from all the states. */
  ghost predicate AllPathsOk(layout: Layout, regions: nat, paths: set<seq<Op>>, ds: seq<Abstract>) {
    forall p, d | p in paths && d in ds :: PathOk(layout, regions, p, d)
  }

  ghost predicate Arrives(layout: Layout, regions: nat, paths: set<seq<Op>>, ds: seq<Abstract>, d': Abstract) {
    exists p, d :: p in paths && d in ds && PathOk(layout, regions, p, d) && PathState(layout, regions, p, d) == d'
  }

  /** Running a list of states through a program is running each state along each path. */
  ghost predicate PerPath(layout: Layout, regions: nat, paths: set<seq<Op>>, ds: seq<Abstract>,
          r: Option<seq<Abstract>>) {
    && (r.Some? <==> AllPathsOk(layout, regions, paths, ds))
    && (r.Some? ==> forall d' :: d' in r.value <==> Arrives(layout, regions, paths, ds, d'))
  }

  lemma {:induction false} PathModeIsPerPath(layout: Layout, regions: nat, ops: seq<Op>, ds: seq<Abstract>)
    requires WellFormed(|layout|, regions, ops) && StatesOk(|layout|, ds, PathMode)
    ensures PerPath(layout, regions, Paths(ops), ds, Analyze(layout, regions, ops, ds, PathMode))
    decreases ops, 1
  {
    if ops == [] {
      forall d | d in ds
        ensures PathOk(layout, regions, [], d) && PathState(layout, regions, [], d) == d
      {
      }
      forall d' | d' in ds
        ensures Arrives(layout, regions, {[]}, ds, d')
      {
        assert [] in Paths(ops) && PathState(layout, regions, [], d') == d';
      }
    } else {
      var mid := AnalyzeOp(layout, regions, ops[0], ds, PathMode);
      PathModeIsPerPathOp(layout, regions, ops[0], ds);
      forall h | h in PathsOp(ops[0]) ensures Straight(h) && WellFormed(|layout|, regions, h) {
        OpPathsAreStraight(|layout|, regions, ops[0], h);
      }
      forall t | t in Paths(ops[1..]) ensures Straight(t) && WellFormed(|layout|, regions, t) {
        PathsAreStraight(|layout|, regions, ops[1..], t);
      }
      if mid.Some? {
        var r := Analyze(layout, regions, ops[1..], mid.value, PathMode);
        PathModeIsPerPath(layout, regions, ops[1..], mid.value);
        PerPathCompose(layout, regions, PathsOp(ops[0]), Paths(ops[1..]), ds, mid.value, r);
      } else {
        var h, d :| h in PathsOp(ops[0]) && d in ds && !PathOk(layout, regions, h, d);
        var t := SomePath(ops[1..]);
        ProductIn(PathsOp(ops[0]), Paths(ops[1..]), h, t);
        PathOkConcat(layout, regions, h, t, d);
      }
    }
  }

  lemma {:induction false} OpPathsAreStraight(cells: nat, regions: nat, op: Op, h: seq<Op>)
    requires WellFormedOp(cells, regions, op) && h in PathsOp(op)
    ensures Straight(h) && WellFormed(cells, regions, h)
  {
    if op.Ite? {
      if h in Paths(op.thn) {
        PathsAreStraight(cells, regions, op.thn, h);
      } else {
        PathsAreStraight(cells, regions, op.els, h);
      }
    } else {
      assert h[1..] == [];
    }
  }

  /** Hypotheses under which two per-path descriptions can be put one after the other. */
  ghost predicate Composable(layout: Layout, regions: nat, hs: set<seq<Op>>, ts: set<seq<Op>>, ds: seq<Abstract>,
          mid: seq<Abstract>) {
    && (forall h | h in hs :: Straight(h) && WellFormed(|layout|, regions, h))
    && (forall t | t in ts :: Straight(t) && WellFormed(|layout|, regions, t))
    && (forall d | d in ds :: |d| == |layout|)
    && PerPath(layout, regions, hs, ds, Some(mid))
  }

  lemma {:induction false} ComposeOne(layout: Layout, regions: nat, hs: set<seq<Op>>, ts: set<seq<Op>>,
                                      ds: seq<Abstract>, mid: seq<Abstract>, h: seq<Op>, t: seq<Op>, d: Abstract)
    requires Composable(layout, regions, hs, ts, ds, mid) && h in hs && t in ts && d in ds
    ensures PathOk(layout, regions, h, d) && PathState(layout, regions, h, d) in mid && h + t in Product(hs, ts)
    ensures PathOk(layout, regions, h + t, d) <==> PathOk(layout, regions, t, PathState(layout, regions, h, d))
    ensures PathOk(layout, regions, h + t, d) ==>
              PathState(layout, regions, h + t, d) == PathState(layout, regions, t, PathState(layout, regions, h, d))
  {
    PathOkConcat(layout, regions, h, t, d);
    ProductIn(hs, ts, h, t);
    assert Arrives(layout, regions, hs, ds, PathState(layout, regions, h, d));
  }

  lemma {:induction false} ComposeOk(layout: Layout, regions: nat, hs: set<seq<Op>>, ts: set<seq<Op>>,
          ds: seq<Abstract>, mid: seq<Abstract>)
    requires Composable(layout, regions, hs, ts, ds, mid)
    ensures AllPathsOk(layout, regions, ts, mid) <==> AllPathsOk(layout, regions, Product(hs, ts), ds)
  {
    if AllPathsOk(layout, regions, Product(hs, ts), ds) {
      forall t, m | t in ts && m in mid
        ensures PathOk(layout, regions, t, m)
      {
        assert Arrives(layout, regions, hs, ds, m);
        var h, d :| h in hs && d in ds && PathOk(layout, regions, h, d) && PathState(layout, regions, h, d) == m;
        ComposeOne(layout, regions, hs, ts, ds, mid, h, t, d);
      }
    }
    if AllPathsOk(layout, regions, ts, mid) {
      forall p, d | p in Product(hs, ts) && d in ds
        ensures PathOk(layout, regions, p, d)
      {
        var h, t :| h in hs && t in ts && p == h + t;
        ComposeOne(layout, regions, hs, ts, ds, mid, h, t, d);
      }
    }
  }

  lemma {:induction false} ComposeArrivals(layout: Layout, regions: nat, hs: set<seq<Op>>, ts: set<seq<Op>>,
                                           ds: seq<Abstract>, mid: seq<Abstract>, d': Abstract)
    requires Composable(layout, regions, hs, ts, ds, mid)
    ensures Arrives(layout, regions, ts, mid, d') <==> Arrives(layout, regions, Product(hs, ts), ds, d')
  {
    if Arrives(layout, regions, ts, mid, d') {
      var t, m :| t in ts && m in mid && PathOk(layout, regions, t, m) && PathState(layout, regions, t, m) == d';
      assert Arrives(layout, regions, hs, ds, m);
      var h, d :| h in hs && d in ds && PathOk(layout, regions, h, d) && PathState(layout, regions, h, d) == m;
      ComposeOne(layout, regions, hs, ts, ds, mid, h, t, d);
    }
    if Arrives(layout, regions, Product(hs, ts), ds, d') {
      var p, d :| p in Product(hs, ts) && d in ds && PathOk(layout, regions, p, d)
        && PathState(layout, regions, p, d) == d';
      var h, t :| h in hs && t in ts && p == h + t;
      ComposeOne(layout, regions, hs, ts, ds, mid, h, t, d);
    }
  }

  lemma {:induction false} PerPathCompose(layout: Layout, regions: nat, hs: set<seq<Op>>, ts: set<seq<Op>>,
                                          ds: seq<Abstract>, mid: seq<Abstract>, r: Option<seq<Abstract>>)
    requires Composable(layout, regions, hs, ts, ds, mid) && PerPath(layout, regions, ts, mid, r)
    ensures PerPath(layout, regions, Product(hs, ts), ds, r)
  {
    ComposeOk(layout, regions, hs, ts, ds, mid);
    forall d'
      ensures Arrives(layout, regions, ts, mid, d') <==> Arrives(layout, regions, Product(hs, ts), ds, d')
    {
      ComposeArrivals(layout, regions, hs, ts, ds, mid, d');
    }
  }

  lemma {:induction false} PathModeIsPerPathOp(layout: Layout, regions: nat, op: Op, ds: seq<Abstract>)
    requires WellFormedOp(|layout|, regions, op) && StatesOk(|layout|, ds, PathMode)
    ensures PerPath(layout, regions, PathsOp(op), ds, AnalyzeOp(layout, regions, op, ds, PathMode))
    decreases op, 0
  {
    var r := AnalyzeOp(layout, regions, op, ds, PathMode);
    match op
    case Ite(t, e) =>
      PathModeIsPerPath(layout, regions, t, ds);
      PathModeIsPerPath(layout, regions, e, ds);
      PerPathUnion(layout, regions, Paths(t), Paths(e), ds,
                   Analyze(layout, regions, t, ds, PathMode), Analyze(layout, regions, e, ds, PathMode));
    case _ =>
      BasicIsPerState(layout, regions, op, ds);
  }

  lemma {:induction false} PerPathUnion(layout: Layout, regions: nat, ps: set<seq<Op>>, qs: set<seq<Op>>,
          ds: seq<Abstract>,
                     rp: Option<seq<Abstract>>, rq: Option<seq<Abstract>>)
    requires PerPath(layout, regions, ps, ds, rp) && PerPath(layout, regions, qs, ds, rq)
    ensures PerPath(layout, regions, ps + qs, ds, if rp.Some? && rq.Some? then Some(rp.value + rq.value) else None)
  {
    if rp.Some? && rq.Some? {
      forall d'
        ensures d' in rp.value + rq.value <==> Arrives(layout, regions, ps + qs, ds, d')
      {
        assert Arrives(layout, regions, ps + qs, ds, d') <==>
          Arrives(layout, regions, ps, ds, d') || Arrives(layout, regions, qs, ds, d');
      }
    }
  }

  lemma {:induction false} BasicIsPerState(layout: Layout, regions: nat, op: Op, ds: seq<Abstract>)
    requires WellFormedOp(|layout|, regions, op) && StatesOk(|layout|, ds, PathMode) && !op.Ite?
    ensures PerPath(layout, regions, {[op]}, ds, AnalyzeOp(layout, regions, op, ds, PathMode))
  {
    var r := AnalyzeOp(layout, regions, op, ds, PathMode);
    assert [op][1..] == [];
    forall k | 0 <= k < |ds|
      ensures PathOk(layout, regions, [op], ds[k]) <==> AnalyzeOp(layout, regions, op, [ds[k]], PathMode).Some?
      ensures r.Some? ==> PathOk(layout, regions, [op], ds[k]) && PathState(layout, regions, [op], ds[k]) == r.value[k]
    {
      var d := ds[k];
      assert [d][0] == d;
      assert WellFormed(|layout|, regions, [op]) && Straight([op]);
      var one := AnalyzeOp(layout, regions, op, [d], PathMode);
      assert Analyze(layout, regions, [op], [d], PathMode) ==
             if one.None? then None else Analyze(layout, regions, [op][1..], one.value, PathMode);
      if op.Copy? && r.Some? {
        assert CopyAllowed(layout, op.a, op.c, ds[k]);
      }
    }
    if r.None? {
      assert exists k | 0 <= k < |ds| :: !PathOk(layout, regions, [op], ds[k]) by {
        if op.Copy? {
          var k :| 0 <= k < |ds| && !CopyAllowed(layout, op.a, op.c, ds[k]);
          assert [ds[k]][0] == ds[k];
          assert !PathOk(layout, regions, [op], ds[k]);
        } else {
          assert !PathOk(layout, regions, [op], ds[0]);
        }
      }
    } else {
      forall d' | d' in r.value ensures Arrives(layout, regions, {[op]}, ds, d') {
        var k :| 0 <= k < |ds| && r.value[k] == d';
        assert [op] in {[op]} && ds[k] in ds && PathState(layout, regions, [op], ds[k]) == d';
      }
    }
  }

  /** Either mode accepts a program exactly when it accepts each of its paths as a program of its own. */
  lemma {:induction false} AcceptsPathByPath(layout: Layout, regions: nat, body: seq<Op>, mode: Mode)
    requires WellFormed(|layout|, regions, body)
    ensures Accepts(layout, regions, body, mode) <==>
            forall p | p in Paths(body) :: WellFormed(|layout|, regions, p) && Accepts(layout, regions, p, mode)
  {
    var d := NothingKnown(|layout|);
    ModesAgree(layout, regions, body);
    PathModeIsPerPath(layout, regions, body, [d]);
    assert d in [d];
    forall p | p in Paths(body)
      ensures PathOk(layout, regions, p, d) <==> WellFormed(|layout|, regions, p) && Accepts(layout, regions, p, mode)
    {
      PathsAreStraight(|layout|, regions, body, p);
      StraightKeepsOneState(layout, regions, p, d, mode);
    }
  }
}
