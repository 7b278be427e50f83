/**
 Inference of placements: every allocation site has a list of regions it may be put in, every
 store demands that the pointee is not deeper than the holder, and `solve` lowers placements
 from the deepest choice until the demands hold.

 The number of regions is not bounded here: that the fixed number of rounds suffices is proved
 by counting settled sites, not by the depth of the chain.
 */
module Inference {
  import opened Wrappers
  import opened RegionProgram
  import opened Counting

  // ---------------------------------------------------------------- the model's criterion

  /** The stores of a program, in textual order, branches included. */
  function StoresOf(ops: seq<Op>): seq<Op> {
    if ops == [] then [] else StoresOfOp(ops[0]) + StoresOf(ops[1..])
  }

  function StoresOfOp(op: Op): seq<Op> {
    match op
    case Store(_, _) => [op]
    case Ite(t, e) => StoresOf(t) + StoresOf(e)
    case _ => []
  }

  predicate StoresOk(cells: nat, stores: seq<Op>) {
    forall i | 0 <= i < |stores| :: stores[i].Store? && stores[i].a < cells && stores[i].b < cells
  }

  lemma {:induction false} StoresAreStores(cells: nat, regions: nat, ops: seq<Op>)
    requires WellFormed(cells, regions, ops)
    ensures StoresOk(cells, StoresOf(ops))
    decreases ops
  {
    if ops != [] {
      StoresAreStores(cells, regions, ops[1..]);
      if ops[0].Ite? {
        assert WellFormedOp(cells, regions, ops[0]);
        StoresAreStores(cells, regions, ops[0].thn);
        StoresAreStores(cells, regions, ops[0].els);
      }
    }
  }

  predicate Meets(layout: Layout, store: Op)
    requires store.Store? && store.a < |layout| && store.b < |layout|
  {
    layout[store.b] <= layout[store.a]
  }

  predicate Solves(layout: Layout, stores: seq<Op>)
    requires StoresOk(|layout|, stores)
  {
    forall i | 0 <= i < |stores| :: Meets(layout, stores[i])
  }

  predicate ModelAccepts(layout: Layout, regions: nat, body: seq<Op>)
    requires WellFormed(|layout|, regions, body)
  {
    StoresAreStores(|layout|, regions, body);
    Solves(layout, StoresOf(body))
  }

  // ---------------------------------------------------------------- allowed placements

  type Allowed = seq<seq<Region>>

  predicate AllowedOk(allowed: Allowed) {
    forall i | 0 <= i < |allowed| :: allowed[i] != []
  }

  function Deepest(choices: seq<Region>): (m: Region)
    requires choices != []
    ensures m in choices && forall r | r in choices :: r <= m
  {
    if |choices| == 1 then choices[0]
    else
      assert forall r | r in choices :: r == choices[0] || r in choices[1..];
      var m := Deepest(choices[1..]);
      if choices[0] >= m then choices[0] else m
  }

  function Shallowest(choices: seq<Region>): (m: Region)
    requires choices != []
    ensures m in choices && forall r | r in choices :: m <= r
  {
    if |choices| == 1 then choices[0]
    else
      assert forall r | r in choices :: r == choices[0] || r in choices[1..];
      var m := Shallowest(choices[1..]);
      if choices[0] <= m then choices[0] else m
  }

  /** `layout` picks one allowed region per site. */
  ghost predicate Permitted(allowed: Allowed, layout: Layout) {
    && |layout| == |allowed|
    && forall i | 0 <= i < |allowed| :: layout[i] in allowed[i]
  }

  /** `layout` stays between the extremes of the allowed regions. */
  ghost predicate WithinHull(allowed: Allowed, layout: Layout)
    requires AllowedOk(allowed)
  {
    && |layout| == |allowed|
    && forall i | 0 <= i < |allowed| :: Shallowest(allowed[i]) <= layout[i] <= Deepest(allowed[i])
  }

  /** A stack local has one allowed region, an object made by `new` a range of them. */
  ghost predicate Intervals(allowed: Allowed)
    requires AllowedOk(allowed)
  {
    forall i, r | 0 <= i < |allowed| && Shallowest(allowed[i]) <= r <= Deepest(allowed[i]) :: r in allowed[i]
  }

  lemma {:induction false} HullOfIntervals(allowed: Allowed, layout: Layout)
    requires AllowedOk(allowed) && Intervals(allowed)
    ensures Permitted(allowed, layout) <==> WithinHull(allowed, layout)
  {
  }

  // ---------------------------------------------------------------- the greatest solution below a bound

  ghost predicate Below(x: Layout, y: Layout) {
    |x| == |y| && forall i | 0 <= i < |x| :: x[i] <= y[i]
  }

  function Lower(alpha: Layout, store: Op): (alpha': Layout)
    requires store.Store? && store.a < |alpha| && store.b < |alpha|
    ensures |alpha'| == |alpha|
  {
    if alpha[store.b] > alpha[store.a] then alpha[store.b := alpha[store.a]] else alpha
  }

  /** One round of `solve`: all stores once, in order, later ones seeing earlier effects. */
  function Round(alpha: Layout, stores: seq<Op>): (alpha': Layout)
    requires StoresOk(|alpha|, stores)
    ensures |alpha'| == |alpha|
  {
    if stores == [] then alpha else Lower(Round(alpha, stores[..|stores| - 1]), stores[|stores| - 1])
  }

  function Sum(alpha: Layout): nat {
    if alpha == [] then 0 else alpha[0] + Sum(alpha[1..])
  }

  lemma {:induction false} SumMonotone(x: Layout, y: Layout)
    requires Below(x, y)
    ensures Sum(x) <= Sum(y)
    ensures x != y ==> Sum(x) < Sum(y)
  {
    if x != [] {
      SumMonotone(x[1..], y[1..]);
      if x[0] == y[0] && x != y {
        assert x == [x[0]] + x[1..] && y == [y[0]] + y[1..];
      }
    }
  }

  lemma {:induction false} RoundDescends(alpha: Layout, stores: seq<Op>)
    requires StoresOk(|alpha|, stores)
    ensures Below(Round(alpha, stores), alpha)
  {
    if stores != [] {
      RoundDescends(alpha, stores[..|stores| - 1]);
    }
  }

  /** A round never drops below a solution. */
  lemma {:induction false} RoundKeepsSolutions(alpha: Layout, stores: seq<Op>, g: Layout)
    requires StoresOk(|alpha|, stores) && Below(g, alpha) && Solves(g, stores)
    ensures Below(g, Round(alpha, stores))
  {
    if stores != [] {
      var last := |stores| - 1;
      RoundKeepsSolutions(alpha, stores[..last], g);
      assert Meets(g, stores[last]);
    }
  }

  lemma {:induction false} QuietRoundSolves(alpha: Layout, stores: seq<Op>)
    requires StoresOk(|alpha|, stores) && Round(alpha, stores) == alpha
    ensures Solves(alpha, stores)
  {
    if stores != [] {
      var last := |stores| - 1;
      var mid := Round(alpha, stores[..last]);
      RoundDescends(alpha, stores[..last]);
      assert Below(Lower(mid, stores[last]), mid);
      assert mid == alpha;
      QuietRoundSolves(alpha, stores[..last]);
      forall i | 0 <= i < |stores| ensures Meets(alpha, stores[i]) {
        if i < last {
          assert stores[..last][i] == stores[i];
        }
      }
    }
  }

  ghost function Greatest(alpha: Layout, stores: seq<Op>): (g: Layout)
    requires StoresOk(|alpha|, stores)
    ensures |g| == |alpha|
    decreases Sum(alpha)
  {
    var next := Round(alpha, stores);
    if next == alpha then alpha
    else
      RoundDescends(alpha, stores); SumMonotone(next, alpha);
      Greatest(next, stores)
  }

  lemma {:induction false} GreatestIsASolution(alpha: Layout, stores: seq<Op>)
    requires StoresOk(|alpha|, stores)
    ensures Solves(Greatest(alpha, stores), stores) && Below(Greatest(alpha, stores), alpha)
    decreases Sum(alpha)
  {
    var next := Round(alpha, stores);
    RoundDescends(alpha, stores);
    if next == alpha {
      QuietRoundSolves(alpha, stores);
    } else {
      SumMonotone(next, alpha);
      GreatestIsASolution(next, stores);
    }
  }

  lemma {:induction false} GreatestIsGreatest(alpha: Layout, stores: seq<Op>, s: Layout)
    requires StoresOk(|alpha|, stores) && Below(s, alpha) && Solves(s, stores)
    ensures Below(s, Greatest(alpha, stores))
    decreases Sum(alpha)
  {
    var next := Round(alpha, stores);
    RoundKeepsSolutions(alpha, stores, s);
    if next != alpha {
      RoundDescends(alpha, stores);
      SumMonotone(next, alpha);
      GreatestIsGreatest(next, stores, s);
    }
  }

  // ---------------------------------------------------------------- each round settles another site

  ghost function Settled(alpha: Layout, g: Layout): set<nat>
    requires |alpha| == |g|
  {
    set i: nat | i < |g| && alpha[i] == g[i]
  }

  /** `g` is the greatest solution among those below `hi`. */
  ghost predicate IsGreatest(hi: Layout, stores: seq<Op>, g: Layout) {
    && Below(g, hi) && StoresOk(|hi|, stores) && Solves(g, stores)
    && forall s: Layout | Below(s, hi) && StoresOk(|s|, stores) && Solves(s, stores) :: Below(s, g)
  }

  /**
   While some site is unsettled, some unsettled site is tied to a settled one; otherwise all
   unsettled sites could be raised together, and `g` would not be the greatest solution.
   */
  lemma {:induction false} SomeSiteIsTied(hi: Layout, stores: seq<Op>, g: Layout, alpha: Layout) returns (i: nat)
    requires IsGreatest(hi, stores, g) && Below(g, alpha) && Below(alpha, hi)
    requires alpha != g
    ensures i < |stores| && alpha[stores[i].b] != g[stores[i].b]
    ensures alpha[stores[i].a] == g[stores[i].a] == g[stores[i].b]
  {
    var raised := seq(|g|, k requires 0 <= k < |g| && |alpha| == |g| => if alpha[k] == g[k] then g[k] else g[k] + 1);
    assert Below(raised, hi);
    var k :| 0 <= k < |g| && alpha[k] != g[k];
    assert raised[k] > g[k];
    assert !Below(raised, g);
    assert !Solves(raised, stores);
    i :| 0 <= i < |stores| && !Meets(raised, stores[i]);
    assert Meets(g, stores[i]);
  }

  /** Within a round, a site tied to a settled one is settled once its store has been handled. */
  lemma {:induction false} RoundSettlesTied(alpha: Layout, stores: seq<Op>, g: Layout, i: nat)
    requires StoresOk(|alpha|, stores) && Below(g, alpha) && Solves(g, stores) && i < |stores|
    requires alpha[stores[i].a] == g[stores[i].a] == g[stores[i].b]
    ensures Round(alpha, stores)[stores[i].b] == g[stores[i].b]
  {
    var last := |stores| - 1;
    var front := stores[..last];
    RoundDescends(alpha, front);
    RoundKeepsSolutions(alpha, front, g);
    RoundKeepsSolutions(alpha, stores, g);
    if i < last {
      RoundSettlesTied(alpha, front, g, i);
    }
  }

  lemma {:induction false} RoundSettlesOneMore(hi: Layout, stores: seq<Op>, g: Layout, alpha: Layout)
    requires IsGreatest(hi, stores, g) && Below(g, alpha) && Below(alpha, hi)
    ensures Below(g, Round(alpha, stores)) && Below(Round(alpha, stores), hi)
    ensures alpha == g ==> Round(alpha, stores) == g
    ensures alpha != g ==> |Settled(Round(alpha, stores), g)| > |Settled(alpha, g)|
  {
    RoundDescends(alpha, stores);
    RoundKeepsSolutions(alpha, stores, g);
    if alpha != g {
      var i := SomeSiteIsTied(hi, stores, g, alpha);
      RoundSettlesTied(alpha, stores, g, i);
      var before, after := Settled(alpha, g), Settled(Round(alpha, stores), g);
      assert before <= after && stores[i].b in after - before;
      assert after == before + (after - before);
      assert |after| == |before| + |after - before|;
    }
  }

  lemma {:induction false} SettledBound(alpha: Layout, g: Layout)
    requires |alpha| == |g|
    ensures |Settled(alpha, g)| <= |g|
    ensures |Settled(alpha, g)| == |g| ==> alpha == g
  {
    assert Settled(alpha, g) <= Upto(|g|);
    SubsetSize(Settled(alpha, g), Upto(|g|));
    if |Settled(alpha, g)| == |g| {
      forall i: nat | i < |g| ensures alpha[i] == g[i] {
        assert i in Upto(|g|);
      }
    }
  }

  // ---------------------------------------------------------------- solve

  /**
   `solve`: None when lowering would leave a site's allowed range, otherwise the placements
   after the rounds.  It fails exactly when no placement within the hull is accepted, and
   otherwise returns the greatest accepted one.
   */
  method Solve(body: seq<Op>, regions: nat, allowed: Allowed) returns (r: Option<Layout>)
    requires AllowedOk(allowed) && WellFormed(|allowed|, regions, body)
    ensures r.None? ==> forall l | WithinHull(allowed, l) :: !ModelAccepts(l, regions, body)
    ensures r.Some? ==> WithinHull(allowed, r.value) && ModelAccepts(r.value, regions, body)
    ensures r.Some? ==> forall l | WithinHull(allowed, l) && ModelAccepts(l, regions, body) :: Below(l, r.value)
  {
    var n := |allowed|;
    var alpha: Layout := seq(n, i requires 0 <= i < n && AllowedOk(allowed) => Deepest(allowed[i]));
    var stores := StoresOf(body);
    StoresAreStores(n, regions, body);
    ghost var hi := alpha;
    ghost var g := Greatest(hi, stores);
    GreatestIsASolution(hi, stores);
    forall s: Layout | Below(s, hi) && StoresOk(|s|, stores) && Solves(s, stores) ensures Below(s, g) {
      GreatestIsGreatest(hi, stores, s);
    }
    for k := 0 to 4 * n + 4
      invariant |alpha| == n && WithinHull(allowed, alpha) && Below(g, alpha) && Below(alpha, hi)
      invariant alpha == g || |Settled(alpha, g)| >= k
    {
      var before := alpha;
      var changed, stuck;
      alpha, changed, stuck := SolveRound(stores, allowed, before);
      if stuck {
        NoPlacement(body, regions, allowed, hi, g, before);
        return None;
      }
      RoundSettlesOneMore(hi, stores, g, before);
      if !changed {
        QuietRoundSolves(alpha, stores);
        GreatestSolved(hi, stores, g, alpha);
        break;
      }
    }
    SettledBound(alpha, g);
    r := Some(alpha);
    forall l | WithinHull(allowed, l) && ModelAccepts(l, regions, body) ensures Below(l, alpha) {
      assert Below(l, hi);
    }
  }

  /** The body of the outer loop of `solve`. */
  method SolveRound(stores: seq<Op>, allowed: Allowed, before: Layout)
    returns (alpha: Layout, changed: bool, stuck: bool)
    requires AllowedOk(allowed) && StoresOk(|allowed|, stores) && WithinHull(allowed, before)
    ensures stuck <==> Stuck(stores, allowed, before)
    ensures !stuck ==> WithinHull(allowed, alpha) && alpha == Round(before, stores)
    ensures !stuck && !changed ==> alpha == before
  {
    alpha, changed, stuck := before, false, false;
    assert stores[..0] == [];
    for j := 0 to |stores|
      invariant WithinHull(allowed, alpha)
      invariant alpha == Round(before, stores[..j])
      invariant forall i | 0 <= i < j :: !StuckAt(stores, allowed, before, i)
      invariant !stuck
      invariant !changed ==> alpha == before
    {
      var store := stores[j];
      assert stores[..j + 1][..j] == stores[..j];
      if alpha[store.b] > alpha[store.a] {
        if alpha[store.a] < Shallowest(allowed[store.b]) {
          assert StuckAt(stores, allowed, before, j);
          stuck := true;
          return;
        }
        alpha := alpha[store.b := alpha[store.a]];
        changed := true;
      }
    }
    assert stores[..|stores|] == stores;
  }

  /** Handling store `j` in a round from `before` would push a site below its allowed range. */
  ghost predicate StuckAt(stores: seq<Op>, allowed: Allowed, before: Layout, j: nat)
    requires AllowedOk(allowed) && StoresOk(|allowed|, stores) && |before| == |allowed| && j < |stores|
  {
    var mid := Round(before, stores[..j]);
    mid[stores[j].a] < mid[stores[j].b] && mid[stores[j].a] < Shallowest(allowed[stores[j].b])
  }

  ghost predicate Stuck(stores: seq<Op>, allowed: Allowed, before: Layout)
    requires AllowedOk(allowed) && StoresOk(|allowed|, stores) && |before| == |allowed|
  {
    exists j | 0 <= j < |stores| :: StuckAt(stores, allowed, before, j)
  }

  lemma {:induction false} GreatestSolved(hi: Layout, stores: seq<Op>, g: Layout, alpha: Layout)
    requires IsGreatest(hi, stores, g) && Below(g, alpha) && Below(alpha, hi) && Solves(alpha, stores)
    ensures alpha == g
  {
    assert Below(alpha, g);
  }

  /** When a lowering would leave the allowed range, no accepted placement exists. */
  lemma {:induction false} NoPlacement(body: seq<Op>, regions: nat, allowed: Allowed, hi: Layout, g: Layout,
          before: Layout)
    requires AllowedOk(allowed) && WellFormed(|allowed|, regions, body)
    requires IsGreatest(hi, StoresOf(body), g) && |hi| == |allowed|
    requires forall i | 0 <= i < |hi| :: hi[i] == Deepest(allowed[i])
    requires Below(g, before) && Stuck(StoresOf(body), allowed, before)
    ensures forall l | WithinHull(allowed, l) :: !ModelAccepts(l, regions, body)
  {
    var stores := StoresOf(body);
    var j :| 0 <= j < |stores| && StuckAt(stores, allowed, before, j);
    var store := stores[j];
    assert Solves(g, stores[..j]) by {
      forall i | 0 <= i < j ensures Meets(g, stores[..j][i]) { assert Meets(g, stores[i]); }
    }
    RoundKeepsSolutions(before, stores[..j], g);
    assert g[store.a] < Shallowest(allowed[store.b]);
    forall l | WithinHull(allowed, l) ensures !ModelAccepts(l, regions, body) {
      assert Below(l, hi);
      assert Shallowest(allowed[store.b]) <= l[store.b];
      assert Meets(g, store) && !Below(l, g);
    }
  }

  /**
   `model_inferred`: with interval choices the model's own inference succeeds exactly when
   some permitted placement is accepted at all.
   */
  method ModelInferred(body: seq<Op>, regions: nat, allowed: Allowed) returns (ok: bool)
    requires AllowedOk(allowed) && WellFormed(|allowed|, regions, body) && Intervals(allowed)
    ensures ok <==> exists l :: Permitted(allowed, l) && ModelAccepts(l, regions, body)
  {
    var r := Solve(body, regions, allowed);
    forall l ensures Permitted(allowed, l) <==> WithinHull(allowed, l) {
      HullOfIntervals(allowed, l);
    }
    if r.None? {
      return false;
    }
    ok := ModelAccepts(r.value, regions, body);
    assert Permitted(allowed, r.value);
  }

  lemma {:induction false} TwoStores(cells: nat, regions: nat, s: Op, t: Op)
    requires s.Store? && t.Store? && WellFormedOp(cells, regions, s) && WellFormedOp(cells, regions, t)
    ensures WellFormed(cells, regions, [s, t]) && StoresOf([s, t]) == [s, t]
  {
    assert [s, t][1..] == [t] && [t][1..] == [];
    assert WellFormed(cells, regions, []) && StoresOf([]) == [];
    assert WellFormed(cells, regions, [t]) && StoresOf([t]) == [t];
  }

  /** Cell 1 is stored into cell 0 and cell 2 into cell 1. */
  function GapBody(): seq<Op> {
    [Store(0, 1), Store(1, 2)]
  }

  /** Cells 0 and 2 belong at depth 1; cell 1 may be placed above or below it, but not there. */
  function GapAllowed(): Allowed {
    [[1], [0, 2], [1]]
  }

  lemma {:induction false} GapHullSolvable()
    ensures WellFormed(3, 3, GapBody()) && WithinHull(GapAllowed(), [1, 1, 1]) && ModelAccepts([1, 1, 1], 3, GapBody())
  {
    var allowed := GapAllowed();
    TwoStores(3, 3, Store(0, 1), Store(1, 2));
    assert Shallowest([1]) == 1 && Deepest([1]) == 1;
    assert Shallowest(allowed[1]) == 0 by { assert 0 in allowed[1]; }
    assert Deepest(allowed[1]) == 2 by { assert 2 in allowed[1]; }
  }

  lemma {:induction false} GapUnsolvable(l: Layout)
    requires Permitted(GapAllowed(), l)
    ensures !ModelAccepts(l, 3, GapBody())
  {
    var allowed, body := GapAllowed(), GapBody();
    TwoStores(3, 3, Store(0, 1), Store(1, 2));
    assert l[0] in allowed[0] && l[1] in allowed[1] && l[2] in allowed[2];
    assert !Meets(l, StoresOf(body)[0]) || !Meets(l, StoresOf(body)[1]);
  }

  /**
   Without intervals the two differ: here the hull has an accepted placement (1, 1, 1), which
   `solve` returns, but site 1 may only be in region 0 or 2 and no permitted placement is accepted.
   */
  lemma {:induction false} GapsDefeatInference()
    ensures exists body: seq<Op>, allowed: Allowed ::
              && WellFormed(|allowed|, 3, body) && AllowedOk(allowed) && !Intervals(allowed)
              && (exists l :: WithinHull(allowed, l) && ModelAccepts(l, 3, body))
              && forall l | Permitted(allowed, l) :: !ModelAccepts(l, 3, body)
  {
    var body, allowed := GapBody(), GapAllowed();
    assert 1 !in allowed[1];
    GapHullSolvable();
    assert WithinHull(allowed, [1, 1, 1]) && ModelAccepts([1, 1, 1], 3, body);
    forall l | Permitted(allowed, l) ensures !ModelAccepts(l, 3, body) {
      GapUnsolvable(l);
    }
  }
}
