/**
 Which checks a program shows. The analysis looks into both branches even when one is rejected, and
 goes no further than what it has rejected: a store is checked exactly if every store that may run
 before it is allowed.
 */
module ShownChecks {
  import opened RegionProgram
  import opened Inference
  import opened ForcedTwin
  import L = ForcedLoss

  /** In the order of the text, the i-th store of a program comes before its j-th, and not in the other branch. */
  predicate Before(ops: seq<Op>, i: int, j: int)
    decreases ops
  {
    ops != [] &&
    var n := |StoresOfOp(ops[0])|;
    if j < n then BeforeOp(ops[0], i, j) else i < n || Before(ops[1..], i - n, j - n)
  }

  predicate BeforeOp(op: Op, i: int, j: int)
    decreases op
  {
    match op
    case Ite(t, e) =>
      var n := |StoresOf(t)|;
      if j < n then Before(t, i, j) else n <= i && Before(e, i - n, j - n)
    case _ => false
  }

  ghost predicate Shown(layout: Layout, ops: seq<Op>, j: int)
    requires StoresOk(|layout|, StoresOf(ops)) && j < |StoresOf(ops)|
  {
    forall i | 0 <= i < j && Before(ops, i, j) :: Meets(layout, StoresOf(ops)[i])
  }

  ghost predicate ShownOp(layout: Layout, op: Op, j: int)
    requires StoresOk(|layout|, StoresOfOp(op)) && j < |StoresOfOp(op)|
  {
    forall i | 0 <= i < j && BeforeOp(op, i, j) :: Meets(layout, StoresOfOp(op)[i])
  }

  /** The checks of the stores that are to be kept, in order. */
  function Kept(layout: Layout, stores: seq<Op>, keep: seq<bool>): seq<Event>
    requires StoresOk(|layout|, stores) && |keep| == |stores|
  {
    if stores == [] then []
    else (if keep[0] then [Check(layout[stores[0].b], layout[stores[0].a])] else [])
         + Kept(layout, stores[1..], keep[1..])
  }

  ghost function Marks(layout: Layout, ops: seq<Op>): (ks: seq<bool>)
    requires StoresOk(|layout|, StoresOf(ops))
    ensures |ks| == |StoresOf(ops)| && forall j | 0 <= j < |ks| :: ks[j] == Shown(layout, ops, j)
  {
    seq(|StoresOf(ops)|, j requires 0 <= j < |StoresOf(ops)| => Shown(layout, ops, j))
  }

  ghost function MarksOp(layout: Layout, op: Op): (ks: seq<bool>)
    requires StoresOk(|layout|, StoresOfOp(op))
    ensures |ks| == |StoresOfOp(op)| && forall j | 0 <= j < |ks| :: ks[j] == ShownOp(layout, op, j)
  {
    seq(|StoresOfOp(op)|, j requires 0 <= j < |StoresOfOp(op)| => ShownOp(layout, op, j))
  }

  lemma {:induction false} KeptConcat(layout: Layout, xs: seq<Op>, ys: seq<Op>, ks: seq<bool>, ls: seq<bool>)
    requires StoresOk(|layout|, xs) && StoresOk(|layout|, ys) && |ks| == |xs| && |ls| == |ys|
    ensures StoresOk(|layout|, xs + ys)
    ensures Kept(layout, xs + ys, ks + ls) == Kept(layout, xs, ks) + Kept(layout, ys, ls)
  {
    if xs == [] {
      assert xs + ys == ys && ks + ls == ls;
    } else {
      assert (xs + ys)[1..] == xs[1..] + ys && (ks + ls)[1..] == ks[1..] + ls;
      KeptConcat(layout, xs[1..], ys, ks[1..], ls);
    }
  }

  lemma {:induction false} NoneKept(layout: Layout, xs: seq<Op>, ks: seq<bool>)
    requires StoresOk(|layout|, xs) && |ks| == |xs| && true !in ks
    ensures Kept(layout, xs, ks) == []
  {
    if xs != [] {
      assert !ks[0] by { assert ks[0] in ks; }
      NoneKept(layout, xs[1..], ks[1..]);
    }
  }

  lemma {:induction false} StoresSplit(cells: nat, regions: nat, ops: seq<Op>)
    requires WellFormed(cells, regions, ops) && ops != []
    ensures StoresOk(cells, StoresOfOp(ops[0])) && StoresOk(cells, StoresOf(ops[1..]))
    ensures StoresOf(ops) == StoresOfOp(ops[0]) + StoresOf(ops[1..]) && StoresOk(cells, StoresOf(ops))
  {
    StoresAreStores(cells, regions, ops);
    StoresAreStores(cells, regions, ops[1..]);
    forall i | 0 <= i < |StoresOfOp(ops[0])| ensures StoresOfOp(ops[0])[i] == StoresOf(ops)[i] {}
  }

  /** What the first operation rejects keeps the rest from being looked at. */
  lemma {:induction false} MarksOfCons(layout: Layout, regions: nat, ops: seq<Op>) returns (ls: seq<bool>)
    requires WellFormed(|layout|, regions, ops) && ops != []
    ensures StoresOk(|layout|, StoresOfOp(ops[0])) && StoresOk(|layout|, StoresOf(ops[1..]))
    ensures StoresOk(|layout|, StoresOf(ops))
    ensures Marks(layout, ops) == MarksOp(layout, ops[0]) + ls && |ls| == |StoresOf(ops[1..])|
    ensures Solves(layout, StoresOfOp(ops[0])) ==> ls == Marks(layout, ops[1..])
    ensures !Solves(layout, StoresOfOp(ops[0])) ==> true !in ls
  {
    StoresSplit(|layout|, regions, ops);
    var xs, ys := StoresOfOp(ops[0]), StoresOf(ops[1..]);
    var all, n := xs + ys, |xs|;
    ls := Marks(layout, ops)[n..];
    forall j | 0 <= j < n ensures Marks(layout, ops)[j] == MarksOp(layout, ops[0])[j] {
      assert forall i | 0 <= i < j :: all[i] == xs[i];
    }
    forall j | 0 <= j < |ys| ensures ls[j] == (Solves(layout, xs) && Shown(layout, ops[1..], j)) {
      ShownInRest(layout, regions, ops, j);
    }
  }

  lemma {:induction false} ShownInRest(layout: Layout, regions: nat, ops: seq<Op>, j: nat)
    requires WellFormed(|layout|, regions, ops) && ops != [] && j < |StoresOf(ops[1..])|
    ensures StoresOk(|layout|, StoresOf(ops)) && StoresOk(|layout|, StoresOfOp(ops[0]))
    ensures StoresOk(|layout|, StoresOf(ops[1..]))
    ensures var n := |StoresOfOp(ops[0])|;
            Shown(layout, ops, n + j) <==> Solves(layout, StoresOfOp(ops[0])) && Shown(layout, ops[1..], j)
  {
    StoresSplit(|layout|, regions, ops);
    var xs, ys := StoresOfOp(ops[0]), StoresOf(ops[1..]);
    var all, n := xs + ys, |xs|;
    if Shown(layout, ops, n + j) {
      forall i | 0 <= i < n ensures Meets(layout, xs[i]) {
        assert Before(ops, i, n + j) && all[i] == xs[i];
      }
      forall i | 0 <= i < j && Before(ops[1..], i, j) ensures Meets(layout, ys[i]) {
        var k := n + i;
        assert Before(ops, k, n + j) && all[k] == ys[i];
      }
    }
    if Solves(layout, xs) && Shown(layout, ops[1..], j) {
      forall k | 0 <= k < n + j && Before(ops, k, n + j) ensures Meets(layout, all[k]) {
        if k < n {
          assert all[k] == xs[k] && Meets(layout, xs[k]);
        } else {
          assert all[k] == ys[k - n] && Before(ops[1..], k - n, j);
        }
      }
    }
  }

  /** Neither branch keeps the other from being looked at. */
  lemma {:induction false} MarksOfIte(layout: Layout, op: Op)
    requires op.Ite? && StoresOk(|layout|, StoresOf(op.thn)) && StoresOk(|layout|, StoresOf(op.els))
    ensures StoresOk(|layout|, StoresOfOp(op))
    ensures MarksOp(layout, op) == Marks(layout, op.thn) + Marks(layout, op.els)
  {
    var xs, ys := StoresOf(op.thn), StoresOf(op.els);
    var all, n := xs + ys, |xs|;
    assert StoresOfOp(op) == all;
    forall j | 0 <= j < n ensures ShownOp(layout, op, j) == Shown(layout, op.thn, j) {
      assert forall i | 0 <= i < j :: all[i] == xs[i] && (BeforeOp(op, i, j) <==> Before(op.thn, i, j));
    }
    forall j | 0 <= j < |ys| ensures ShownOp(layout, op, n + j) == Shown(layout, op.els, j) {
      ShownInElse(layout, op, j);
    }
  }

  lemma {:induction false} ShownInElse(layout: Layout, op: Op, j: nat)
    requires op.Ite? && StoresOk(|layout|, StoresOfOp(op)) && StoresOk(|layout|, StoresOf(op.els))
    requires j < |StoresOf(op.els)|
    ensures ShownOp(layout, op, |StoresOf(op.thn)| + j) <==> Shown(layout, op.els, j)
  {
    var xs, ys := StoresOf(op.thn), StoresOf(op.els);
    var all, n := xs + ys, |xs|;
    assert StoresOfOp(op) == all;
    if ShownOp(layout, op, n + j) {
      forall i | 0 <= i < j && Before(op.els, i, j) ensures Meets(layout, ys[i]) {
        var k := n + i;
        assert BeforeOp(op, k, n + j) && all[k] == ys[i];
      }
    }
    if Shown(layout, op.els, j) {
      forall k | 0 <= k < n + j && BeforeOp(op, k, n + j) ensures Meets(layout, all[k]) {
        assert all[k] == ys[k - n] && Before(op.els, k - n, j);
      }
    }
  }

  /**
   The check trace, said without the analysis: the stores in the order of the text, but for those that
   come after a store that fails.
   */
  lemma {:induction false} TraceIsShownStores(layout: Layout, regions: nat, ops: seq<Op>)
    requires WellFormed(|layout|, regions, ops) && CopyFree(ops)
    ensures StoresOk(|layout|, StoresOf(ops))
    ensures CheckTrace(layout, regions, ops) == Kept(layout, StoresOf(ops), Marks(layout, ops))
    decreases ops
  {
    if ops == [] {
      assert StoresOf(ops) == [] && Analyze(layout, regions, ops).trace == [];
    } else {
      var op, rest := ops[0], ops[1..];
      StoresSplit(|layout|, regions, ops);
      var ls := MarksOfCons(layout, regions, ops);
      KeptConcat(layout, StoresOfOp(op), StoresOf(rest), MarksOp(layout, op), ls);
      OpShowsItsStores(layout, regions, op);
      if Solves(layout, StoresOfOp(op)) {
        TraceIsShownStores(layout, regions, rest);
        L.ChecksConcat(AnalyzeOp(layout, regions, op).trace, Analyze(layout, regions, rest).trace);
      } else {
        NoneKept(layout, StoresOf(rest), ls);
      }
    }
  }

  lemma {:induction false} OpShowsItsStores(layout: Layout, regions: nat, op: Op)
    requires WellFormedOp(|layout|, regions, op) && CopyFreeOp(op)
    ensures StoresOk(|layout|, StoresOfOp(op))
    ensures AnalyzeOp(layout, regions, op).ok <==> Solves(layout, StoresOfOp(op))
    ensures Checks(AnalyzeOp(layout, regions, op).trace) == Kept(layout, StoresOfOp(op), MarksOp(layout, op))
    decreases op
  {
    match op {
      case Ite(t, e) =>
        TraceIsShownStores(layout, regions, t);
        TraceIsShownStores(layout, regions, e);
        MarksOfIte(layout, op);
        KeptConcat(layout, StoresOf(t), StoresOf(e), Marks(layout, t), Marks(layout, e));
        L.ChecksConcat(Analyze(layout, regions, t).trace, Analyze(layout, regions, e).trace);
        AcceptedIffStoresMeet(layout, regions, t);
        AcceptedIffStoresMeet(layout, regions, e);
        SolvesConcat(layout, StoresOf(t), StoresOf(e));
      case Store(a, b) =>
        var stores, check, keep := StoresOfOp(op), Check(layout[b], layout[a]), MarksOp(layout, op);
        assert stores == [op] && stores[0] == op && keep[0];
        assert Kept(layout, stores, keep) == [check] + Kept(layout, stores[1..], keep[1..]);
        assert [check][1..] == [];
      case Exit(r) =>
        assert [Exited(r)][1..] == [];
      case _ =>
    }
  }
}
