/**
 Every rejection is forced: some unsafe program shows the checker the very same checks, so no sound
 decision that rests on the checks alone can pass the rejected one.
 */
module ForcedLoss {
  import opened Wrappers
  import opened RegionProgram
  import opened F = ForcedTwin
  import PathSensitivity

  // ---------------------------------------------------------------- the twin of a whole program

  /** Path `p` with the pointee's exit put right after store `k`. */
  function ExitInserted(layout: Layout, p: seq<Op>, k: nat): seq<Op>
    requires k < |p| && TooDeep(layout, p[k])
  {
    p[..k + 1] + [Exit(layout[p[k].b])] + p[k + 1..]
  }

  lemma {:induction false} InsertedInHead(layout: Layout, h: seq<Op>, t: seq<Op>, k: nat)
    requires k < |h| && TooDeep(layout, h[k])
    ensures (h + t)[k] == h[k] && ExitInserted(layout, h + t, k) == ExitInserted(layout, h, k) + t
  {
    assert (h + t)[..k + 1] == h[..k + 1] && (h + t)[k + 1..] == h[k + 1..] + t;
  }

  lemma {:induction false} InsertedInTail(layout: Layout, h: seq<Op>, t: seq<Op>, k: nat)
    requires |h| <= k < |h + t| && TooDeep(layout, t[k - |h|])
    ensures (h + t)[k] == t[k - |h|] && ExitInserted(layout, h + t, k) == h + ExitInserted(layout, t, k - |h|)
  {
    assert (h + t)[..k + 1] == h + t[..k - |h| + 1] && (h + t)[k + 1..] == t[k - |h| + 1..];
  }

  /** A path of a program is a path of its first operation and then one of the rest. */
  lemma {:induction false} PathOfCons(op: Op, rest: seq<Op>, h: seq<Op>, t: seq<Op>)
    requires h in PathsOp(op) && t in Paths(rest)
    ensures h + t in Paths([op] + rest)
  {
    assert ([op] + rest)[1..] == rest;
    ProductIn(PathsOp(op), Paths(rest), h, t);
  }

  lemma {:induction false} ConsShape(cells: nat, regions: nat, op: Op, rest: seq<Op>)
    ensures ([op] + rest)[0] == op && ([op] + rest)[1..] == rest
    ensures WellFormed(cells, regions, [op] + rest) <==>
              WellFormedOp(cells, regions, op) && WellFormed(cells, regions, rest)
    ensures CopyFree([op] + rest) <==> CopyFreeOp(op) && CopyFree(rest)
  {
    assert ([op] + rest)[1..] == rest;
  }

  /**
   An exit can be put right after a store that is too deep, wherever it stands, in a branch or not:
   the analysis does not get to it, and the program gains the path with that exit.
   */
  lemma {:induction false} ExitAfter(layout: Layout, regions: nat, ops: seq<Op>, p: seq<Op>, k: nat)
    returns (twin: seq<Op>)
    requires LayoutOk(regions, layout) && WellFormed(|layout|, regions, ops) && CopyFree(ops)
    requires p in Paths(ops) && k < |p| && TooDeep(layout, p[k])
    ensures WellFormed(|layout|, regions, twin) && CopyFree(twin)
    ensures Analyze(layout, regions, twin) == Analyze(layout, regions, ops)
    ensures ExitInserted(layout, p, k) in Paths(twin)
    decreases ops
  {
    var op, rest := ops[0], ops[1..];
    assert ops == [op] + rest;
    var h, t :| h in PathsOp(op) && t in Paths(rest) && p == h + t;
    if k < |h| {
      assert h[k] == p[k];
      InsertedInHead(layout, h, t, k);
      if op.Ite? {
        twin := ExitInBranch(layout, regions, op, rest, h, t, k);
      } else {
        assert h == [op] && k == 0;
        twin := ExitAfterStore(layout, regions, op, rest, t);
      }
    } else {
      assert t[k - |h|] == p[k];
      InsertedInTail(layout, h, t, k);
      var x := ExitAfter(layout, regions, rest, t, k - |h|);
      twin := [op] + x;
      ConsShape(|layout|, regions, op, x);
      PathOfCons(op, x, h, ExitInserted(layout, t, k - |h|));
    }
  }

  lemma {:induction false} ExitAfterStore(layout: Layout, regions: nat, op: Op, rest: seq<Op>, t: seq<Op>)
    returns (twin: seq<Op>)
    requires LayoutOk(regions, layout) && WellFormedOp(|layout|, regions, op) && CopyFreeOp(op) && TooDeep(layout, op)
    requires WellFormed(|layout|, regions, rest) && CopyFree(rest) && t in Paths(rest)
    ensures WellFormed(|layout|, regions, twin) && CopyFree(twin)
    ensures WellFormed(|layout|, regions, [op] + rest) && CopyFree([op] + rest)
    ensures Analyze(layout, regions, twin) == Analyze(layout, regions, [op] + rest)
    ensures ExitInserted(layout, [op], 0) + t in Paths(twin)
  {
    var exit := Exit(layout[op.b]);
    var after := [exit] + rest;
    twin := [op] + after;
    ConsShape(|layout|, regions, exit, rest);
    ConsShape(|layout|, regions, op, after);
    ConsShape(|layout|, regions, op, rest);
    PathOfCons(exit, rest, [exit], t);
    PathOfCons(op, after, [op], [exit] + t);
    assert ExitInserted(layout, [op], 0) + t == [op] + ([exit] + t);
  }

  lemma {:induction false} ExitInBranch(layout: Layout, regions: nat, op: Op, rest: seq<Op>, h: seq<Op>, t: seq<Op>,
          k: nat)
    returns (twin: seq<Op>)
    requires LayoutOk(regions, layout) && WellFormedOp(|layout|, regions, op) && CopyFreeOp(op) && op.Ite?
    requires WellFormed(|layout|, regions, rest) && CopyFree(rest)
    requires h in PathsOp(op) && t in Paths(rest) && k < |h| && TooDeep(layout, h[k])
    ensures WellFormed(|layout|, regions, twin) && CopyFree(twin)
    ensures WellFormed(|layout|, regions, [op] + rest) && CopyFree([op] + rest)
    ensures Analyze(layout, regions, twin) == Analyze(layout, regions, [op] + rest)
    ensures ExitInserted(layout, h, k) + t in Paths(twin)
    decreases op
  {
    var op' := op;
    if h in Paths(op.thn) {
      var x := ExitAfter(layout, regions, op.thn, h, k);
      op' := Ite(x, op.els);
    } else {
      var x := ExitAfter(layout, regions, op.els, h, k);
      op' := Ite(op.thn, x);
    }
    twin := [op'] + rest;
    ConsShape(|layout|, regions, op', rest);
    ConsShape(|layout|, regions, op, rest);
    PathOfCons(op', rest, ExitInserted(layout, h, k), t);
  }

  /** The path with the exit is unsafe if the holder was alive at the store. */
  lemma {:induction false} InsertedIsUnsafe(layout: Layout, regions: nat, twin: seq<Op>, p: seq<Op>, k: nat)
    requires LayoutOk(regions, layout) && WellFormed(|layout|, regions, twin) && CopyFree(twin)
    requires RejectsAlive(layout, regions, p, k) && ExitInserted(layout, p, k) in Paths(twin)
    ensures !ConcretelySafe(layout, regions, twin)
  {
    var pre, op, q := p[..k], p[k], ExitInserted(layout, p, k);
    var cand := Candidate(layout, pre, op);
    assert p == pre + ([op] + p[k + 1..]);
    StraightLineConcat(|layout|, regions, pre, [op] + p[k + 1..]);
    ConsShape(|layout|, regions, op, p[k + 1..]);
    CandidateShape(layout, regions, pre, op);
    CandidateUnsafeIffAlive(layout, regions, pre, op);
    assert q == cand + p[k + 1..];
    PathsAreStraight(|layout|, regions, twin, q);
    CopyFreePaths(twin, q);
    StraightLineConcat(|layout|, regions, cand, p[k + 1..]);
    UnsafePrefix(layout, regions, twin, cand, p[k + 1..]);
  }

  lemma {:induction false} UnsafePrefix(layout: Layout, regions: nat, twin: seq<Op>, cand: seq<Op>, more: seq<Op>)
    requires LayoutOk(regions, layout) && WellFormed(|layout|, regions, twin) && cand + more in Paths(twin)
    requires StraightLine(|layout|, regions, cand) && StraightLine(|layout|, regions, more)
    requires !ConcretelySafe(layout, regions, cand)
    ensures !ConcretelySafe(layout, regions, twin)
  {
    var start := Start(layout);
    PointersShallowIsSafe(layout, start.ptr, start.dead);
    RunMeansSafeEverywhere(layout, regions, twin, start);
    RunMeansSafeEverywhere(layout, regions, cand, start);
    StraightIsItsPath(cand);
    SafeAlongSplit(layout, regions, cand, more, start);
    PathsAreStraight(|layout|, regions, twin, cand + more);
  }

  /**
   A program with a path whose first rejected store has a living holder has a twin of its own: the
   analysis sees exactly the same and rejects it just so, and it is unsafe.
   */
  lemma {:induction false} TwinOfTheWhole(layout: Layout, regions: nat, body: seq<Op>) returns (twin: seq<Op>)
    requires LayoutOk(regions, layout) && WellFormed(|layout|, regions, body) && CopyFree(body)
    requires F.ForcedTwin(layout, regions, body).Some?
    ensures WellFormed(|layout|, regions, twin) && CopyFree(twin)
    ensures Analyze(layout, regions, twin) == Analyze(layout, regions, body)
    ensures !Accepted(layout, regions, twin) && !ConcretelySafe(layout, regions, twin)
  {
    TwinExistsIff(layout, regions, body);
    var p: seq<Op>, k: nat :| p in Paths(body) && RejectsAlive(layout, regions, p, k);
    twin := ExitAfter(layout, regions, body, p, k);
    InsertedIsUnsafe(layout, regions, twin, p, k);
    AcceptedIffPathsShallow(layout, regions, body);
    assert !ShallowStores(layout, p);
  }

  // ---------------------------------------------------------------- every rejection

  /** The program with all its exits left out. */
  function WithoutExits(ops: seq<Op>): seq<Op> {
    if ops == [] then [] else WithoutExitsOp(ops[0]) + WithoutExits(ops[1..])
  }

  function WithoutExitsOp(op: Op): seq<Op> {
    match op
    case Exit(_) => []
    case Ite(t, e) => [Ite(WithoutExits(t), WithoutExits(e))]
    case _ => [op]
  }

  lemma {:induction false} ChecksConcat(xs: seq<Event>, ys: seq<Event>)
    ensures Checks(xs + ys) == Checks(xs) + Checks(ys)
  {
    if xs == [] {
      assert xs + ys == ys;
    } else {
      assert (xs + ys)[1..] == xs[1..] + ys;
      ChecksConcat(xs[1..], ys);
    }
  }

  /** Exits are all the same to the analysis: without them it makes the same checks and decides the same. */
  lemma {:induction false} ExitsDoNotShow(layout: Layout, regions: nat, ops: seq<Op>)
    requires WellFormed(|layout|, regions, ops) && CopyFree(ops)
    ensures var w := WithoutExits(ops);
            && WellFormed(|layout|, regions, w) && CopyFree(w) && ExitFree(w)
            && Accepted(layout, regions, w) == Accepted(layout, regions, ops)
            && CheckTrace(layout, regions, w) == CheckTrace(layout, regions, ops)
    decreases ops
  {
    if ops != [] {
      var op, rest := ops[0], ops[1..];
      ExitsDoNotShow(layout, regions, rest);
      var v, u := AnalyzeOp(layout, regions, op), Analyze(layout, regions, rest);
      ChecksConcat(v.trace, u.trace);
      if op.Exit? {
        assert WithoutExits(ops) == WithoutExits(rest);
        assert Checks(v.trace[1..]) == [];
      } else {
        var op' := ExitsDoNotShowOp(layout, regions, op);
        ConsShape(|layout|, regions, op', WithoutExits(rest));
        var v', u' := AnalyzeOp(layout, regions, op'), Analyze(layout, regions, WithoutExits(rest));
        ChecksConcat(v'.trace, u'.trace);
      }
    }
  }

  lemma {:induction false} ExitsDoNotShowOp(layout: Layout, regions: nat, op: Op) returns (op': Op)
    requires WellFormedOp(|layout|, regions, op) && CopyFreeOp(op) && !op.Exit?
    ensures WithoutExitsOp(op) == [op']
    ensures WellFormedOp(|layout|, regions, op') && CopyFreeOp(op') && ExitFreeOp(op')
    ensures AnalyzeOp(layout, regions, op').ok == AnalyzeOp(layout, regions, op).ok
    ensures Checks(AnalyzeOp(layout, regions, op').trace) == Checks(AnalyzeOp(layout, regions, op).trace)
    decreases op
  {
    op' := WithoutExitsOp(op)[0];
    if op.Ite? {
      ExitsDoNotShow(layout, regions, op.thn);
      ExitsDoNotShow(layout, regions, op.els);
      ChecksConcat(Analyze(layout, regions, op.thn).trace, Analyze(layout, regions, op.els).trace);
      ChecksConcat(Analyze(layout, regions, op'.thn).trace, Analyze(layout, regions, op'.els).trace);
    }
  }

  /** No check compares a deeper content with a shallower holder. */
  predicate AllPass(checks: seq<Event>) {
    forall i | 0 <= i < |checks| && checks[i].Check? :: checks[i].content <= checks[i].holder
  }

  lemma {:induction false} AllPassConcat(xs: seq<Event>, ys: seq<Event>)
    ensures AllPass(xs + ys) <==> AllPass(xs) && AllPass(ys)
  {
    if AllPass(xs + ys) {
      assert forall i | 0 <= i < |xs| :: xs[i] == (xs + ys)[i];
      assert forall i | 0 <= i < |ys| :: ys[i] == (xs + ys)[|xs| + i];
    }
  }

  lemma {:induction false} ChecksPass(trace: seq<Event>)
    ensures AllPass(Checks(trace)) <==> AllPass(trace)
  {
    if trace != [] {
      ChecksPass(trace[1..]);
      assert trace == [trace[0]] + trace[1..];
      AllPassConcat([trace[0]], trace[1..]);
      if trace[0].Check? {
        AllPassConcat([trace[0]], Checks(trace[1..]));
      }
    }
  }

  /** The checks alone decide. */
  lemma {:induction false} ChecksDecide(layout: Layout, regions: nat, ops: seq<Op>)
    requires WellFormed(|layout|, regions, ops) && CopyFree(ops)
    ensures Accepted(layout, regions, ops) <==> AllPass(CheckTrace(layout, regions, ops))
  {
    ChecksPass(Analyze(layout, regions, ops).trace);
    TraceDecides(layout, regions, ops);
  }

  lemma {:induction false} TraceDecides(layout: Layout, regions: nat, ops: seq<Op>)
    requires WellFormed(|layout|, regions, ops) && CopyFree(ops)
    ensures Accepted(layout, regions, ops) <==> AllPass(Analyze(layout, regions, ops).trace)
    decreases ops
  {
    if ops != [] {
      var op, rest := ops[0], ops[1..];
      TraceDecides(layout, regions, rest);
      TraceDecidesOp(layout, regions, op);
      AllPassConcat(AnalyzeOp(layout, regions, op).trace, Analyze(layout, regions, rest).trace);
    }
  }

  lemma {:induction false} TraceDecidesOp(layout: Layout, regions: nat, op: Op)
    requires WellFormedOp(|layout|, regions, op) && CopyFreeOp(op)
    ensures AnalyzeOp(layout, regions, op).ok <==> AllPass(AnalyzeOp(layout, regions, op).trace)
    decreases op
  {
    if op.Ite? {
      TraceDecides(layout, regions, op.thn);
      TraceDecides(layout, regions, op.els);
      AllPassConcat(Analyze(layout, regions, op.thn).trace, Analyze(layout, regions, op.els).trace);
    } else {
      assert |AnalyzeOp(layout, regions, op).trace| == 1;
      assert op.Store? ==> AnalyzeOp(layout, regions, op).trace[0].Check?;
    }
  }

  /** An accepted program is safe. */
  lemma {:induction false} AcceptedIsSafe(layout: Layout, regions: nat, body: seq<Op>)
    requires WellFormed(|layout|, regions, body) && CopyFree(body) && Accepted(layout, regions, body)
    ensures ConcretelySafe(layout, regions, body)
  {
    AcceptedIffDepthsAccepted(layout, regions, body, PathSensitivity.JoinMode);
    PathSensitivity.AcceptedIsSafe(layout, regions, body, PathSensitivity.JoinMode);
  }

  /** `twin` shows the same checks as `body` and is unsafe. */
  ghost predicate UnsafeTwin(layout: Layout, regions: nat, body: seq<Op>, twin: seq<Op>)
    requires WellFormed(|layout|, regions, body) && CopyFree(body)
  {
    && WellFormed(|layout|, regions, twin) && CopyFree(twin)
    && CheckTrace(layout, regions, twin) == CheckTrace(layout, regions, body)
    && !ConcretelySafe(layout, regions, twin)
  }

  /**
   The checker rejects exactly the programs it has to: those for which some unsafe program shows the
   same checks, wherever the exits stand.
   */
  lemma {:induction false} RejectedIffUnsafeTwin(layout: Layout, regions: nat, body: seq<Op>)
    requires LayoutOk(regions, layout) && WellFormed(|layout|, regions, body) && CopyFree(body)
    ensures !Accepted(layout, regions, body) <==> exists twin :: UnsafeTwin(layout, regions, body, twin)
  {
    if !Accepted(layout, regions, body) {
      var twin := RejectedHasTwin(layout, regions, body);
    }
    if twin :| UnsafeTwin(layout, regions, body, twin) {
      ChecksDecide(layout, regions, body);
      ChecksDecide(layout, regions, twin);
      if Accepted(layout, regions, body) {
        AcceptedIsSafe(layout, regions, twin);
      }
    }
  }

  /** Without its exits the program shows the same checks, and there every holder is alive. */
  lemma {:induction false} RejectedHasTwin(layout: Layout, regions: nat, body: seq<Op>) returns (twin: seq<Op>)
    requires LayoutOk(regions, layout) && WellFormed(|layout|, regions, body) && CopyFree(body)
    requires !Accepted(layout, regions, body)
    ensures UnsafeTwin(layout, regions, body, twin)
  {
    var w := WithoutExits(body);
    ExitsDoNotShow(layout, regions, body);
    assert w + [] == w;
    ExitsLastIsWellScoped(layout, regions, w, []);
    EveryWellScopedRejectionIsForced(layout, regions, w);
    twin := TwinOfTheWhole(layout, regions, w);
  }

  /** A decision procedure that sees only the checks and never passes an unsafe program. */
  ghost predicate SoundOnChecks(layout: Layout, regions: nat, decide: seq<Event> -> bool) {
    forall p | WellFormed(|layout|, regions, p) && CopyFree(p) && decide(CheckTrace(layout, regions, p)) ::
      ConcretelySafe(layout, regions, p)
  }

  /**
   Whatever the checker rejects, every such procedure rejects as well: the loss cannot be removed by
   better rules.
   */
  lemma {:induction false} LossIsForced(layout: Layout, regions: nat, body: seq<Op>, decide: seq<Event> -> bool)
    requires LayoutOk(regions, layout) && WellFormed(|layout|, regions, body) && CopyFree(body)
    requires SoundOnChecks(layout, regions, decide) && decide(CheckTrace(layout, regions, body))
    ensures Accepted(layout, regions, body)
  {
    if !Accepted(layout, regions, body) {
      var twin := RejectedHasTwin(layout, regions, body);
    }
  }

  /** The checker itself is such a procedure. */
  lemma {:induction false} CheckerIsSound(layout: Layout, regions: nat)
    ensures SoundOnChecks(layout, regions, (checks: seq<Event>) => AllPass(checks))
  {
    forall p | WellFormed(|layout|, regions, p) && CopyFree(p) && AllPass(CheckTrace(layout, regions, p))
      ensures ConcretelySafe(layout, regions, p)
    {
      ChecksDecide(layout, regions, p);
      AcceptedIsSafe(layout, regions, p);
    }
  }

  // ---------------------------------------------------------------- where the search finds nothing

  lemma {:induction false} WalkPastOp(layout: Layout, regions: nat, pre: seq<Op>, op: Op, rest: seq<Op>)
    requires LayoutOk(regions, layout) && StraightLine(|layout|, regions, pre)
    requires WellFormed(|layout|, regions, [op] + rest) && CopyFree([op] + rest) && !op.Ite? && !TooDeep(layout, op)
    ensures StraightLine(|layout|, regions, pre + [op]) && WellFormed(|layout|, regions, rest) && CopyFree(rest)
    ensures Walk(layout, regions, pre, [op] + rest) == Walk(layout, regions, pre + [op], rest)
  {
    ConsShape(|layout|, regions, op, rest);
    StraightLineSnoc(|layout|, regions, pre, op);
  }

  /** At a store that is too deep the search gives up if the holder is dead. */
  lemma {:induction false} WalkGivesUp(layout: Layout, regions: nat, pre: seq<Op>, op: Op, rest: seq<Op>)
    requires LayoutOk(regions, layout) && StraightLine(|layout|, regions, pre) && ShallowStores(layout, pre)
    requires WellFormed(|layout|, regions, [op] + rest) && CopyFree([op] + rest) && TooDeep(layout, op)
    requires !Alive(layout[op.a], Exec(|layout|, regions, pre, Start(layout)).dead)
    ensures Walk(layout, regions, pre, [op] + rest).None?
  {
    ConsShape(|layout|, regions, op, rest);
    CandidateShape(layout, regions, pre, op);
    CandidateUnsafeIffAlive(layout, regions, pre, op);
  }

  lemma {:induction false} DeadAfterExit(layout: Layout, regions: nat, r: Region)
    requires r < regions && StraightLine(|layout|, regions, [Exit(r)])
    ensures !Alive(r, Exec(|layout|, regions, [Exit(r)], Start(layout)).dead)
  {
    var start := Start(layout);
    var s := Effect(|layout|, regions, Exit(r), start);
    assert [Exit(r)][1..] == [] && Exec(|layout|, regions, [], s) == s;
    ExitKillsDeeper(regions, r, r, start.dead);
  }

  /**
   The holder's region is gone when the store is rejected: `forced_twin` gives up, although putting
   the exit elsewhere makes an unsafe program with the same checks.
   */
  lemma {:induction false} DeadHolderHasNoTwin()
    ensures var layout, body := [0, 1], [Exit(0), Store(0, 1)];
            && LayoutOk(2, layout) && WellFormed(|layout|, 2, body) && CopyFree(body)
            && !Accepted(layout, 2, body) && F.ForcedTwin(layout, 2, body).None?
            && UnsafeTwin(layout, 2, body, [Store(0, 1), Exit(1)])
  {
    var layout: Layout, exit, store := [0, 1], Exit(0), Store(0, 1);
    var body, twin := [exit, store], [store, Exit(1)];
    assert body == [exit] + [store] && twin == [store] + [Exit(1)] && [store] == [store] + [];
    ConsShape(2, 2, exit, [store]);
    ConsShape(2, 2, store, [Exit(1)]);
    ConsShape(2, 2, store, []);
    ConsShape(2, 2, Exit(1), []);
    assert [exit] == [exit] + [] && [Exit(1)] == [Exit(1)] + [];
    ConsShape(2, 2, exit, []);
    WalkPastOp(layout, 2, [], exit, [store]);
    assert [] + [exit] == [exit];
    DeadAfterExit(layout, 2, 0);
    WalkGivesUp(layout, 2, [exit], store, []);
    CandidateUnsafeIffAlive(layout, 2, [], store);
    assert Candidate(layout, [], store) == twin;
    assert !AnalyzeOp(layout, 2, store).ok;
  }
}
