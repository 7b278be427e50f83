/**
 What the depth analysis decides, said without it: which cells' addresses can have got into a cell along
 a path, and that a program is accepted exactly if none is ever carried into a shallower cell.  Also what
 a path leaves behind when it runs, said without running it.
 */
module PointerFlow {
  import opened Wrappers
  import opened RegionProgram
  import opened PathSensitivity

  // ---------------------------------------------------------------- what a path leaves behind

  /** Operation `i` is the last of the first `k` that writes cell `c`. */
  predicate LastWrite(p: seq<Op>, k: nat, c: Cell, i: nat) {
    i < k <= |p| && Writes(p[i], c) && forall j | i < j < k :: !Writes(p[j], c)
  }

  predicate Writes(op: Op, c: Cell) {
    (op.Store? || op.Copy?) && op.a == c
  }

  function After(cells: nat, regions: nat, p: seq<Op>, k: nat, s: State): State
    requires Straight(p) && WellFormed(cells, regions, p) && k <= |p| && PointersOk(cells, s.ptr)
  {
    PrefixOk(cells, regions, p, k);
    Exec(cells, regions, p[..k], s)
  }

  lemma {:induction false} AfterNext(layout: Layout, regions: nat, p: seq<Op>, k: nat, s: State)
    requires Straight(p) && WellFormed(|layout|, regions, p) && k < |p| && PointersOk(|layout|, s.ptr)
    ensures WellFormedOp(|layout|, regions, p[k]) && PointersOk(|layout|, After(|layout|, regions, p, k, s).ptr)
    ensures After(|layout|, regions, p, k + 1, s)
            == Effect(|layout|, regions, p[k], After(|layout|, regions, p, k, s))
  {
    PrefixOk(|layout|, regions, p, k);
    PrefixOk(|layout|, regions, p, k + 1);
    var op := p[k];
    assert p[..k + 1] == p[..k] + [op];
    WellFormedConcat(|layout|, regions, p[..k], [op]);
    assert [op][0] == op && [op][1..] == [];
    ExecConcat(layout, regions, p[..k], [op], s);
  }

  /**
   After a path a cell holds what its last write put there: the address a store names, or what the cell
   a copy reads held at that time.  A cell never written holds what it held at the start.
   */
  lemma {:induction false} ContentIsLastWrite(layout: Layout, regions: nat, p: seq<Op>, k: nat, s: State, c: Cell)
    requires Straight(p) && WellFormed(|layout|, regions, p) && k <= |p| && PointersOk(|layout|, s.ptr)
    requires c < |layout|
    ensures var now := After(|layout|, regions, p, k, s).ptr;
            && |now| == |layout|
            && (forall i: nat | LastWrite(p, k, c, i) && p[i].Store? :: now[c] == Some(p[i].b))
            && (forall i: nat | LastWrite(p, k, c, i) && p[i].Copy? ::
                  p[i].c < |layout| && now[c] == After(|layout|, regions, p, i, s).ptr[p[i].c])
            && ((forall i: nat | i < k :: !Writes(p[i], c)) ==> now[c] == s.ptr[c])
  {
    if k == 0 {
      assert p[..0] == [];
    } else {
      ContentIsLastWrite(layout, regions, p, k - 1, s, c);
      AfterNext(layout, regions, p, k - 1, s);
      if !Writes(p[k - 1], c) {
        forall i: nat | LastWrite(p, k, c, i) ensures LastWrite(p, k - 1, c, i) {}
      } else {
        forall i: nat | LastWrite(p, k, c, i) ensures i == k - 1 {}
      }
    }
  }

  /** After a path a region is alive exactly if it was and no region at most as deep has been released. */
  lemma {:induction false} AliveIffNoExit(layout: Layout, regions: nat, p: seq<Op>, k: nat, s: State, r: Region)
    requires Straight(p) && WellFormed(|layout|, regions, p) && k <= |p| && PointersOk(|layout|, s.ptr) && r < regions
    ensures Alive(r, After(|layout|, regions, p, k, s).dead) <==>
              Alive(r, s.dead) && forall i | 0 <= i < k :: p[i].Exit? ==> r < p[i].r
  {
    if k == 0 {
      assert p[..0] == [];
    } else {
      AliveIffNoExit(layout, regions, p, k - 1, s, r);
      AfterNext(layout, regions, p, k - 1, s);
      if p[k - 1].Exit? {
        ExitKillsDeeper(regions, p[k - 1].r, r, After(|layout|, regions, p, k - 1, s).dead);
      }
    }
  }

  // ---------------------------------------------------------------- what can have got into a cell

  /**
   The address of `b` can have got into `c` by the first `k` operations: a store put it there, or a copy
   from a cell it had got into before.  What has got into a cell is never forgotten.
   */
  ghost predicate Flowed(p: seq<Op>, k: nat, b: Cell, c: Cell)
    decreases k
  {
    && 0 < k <= |p|
    && (|| Flowed(p, k - 1, b, c)
        || p[k - 1] == Store(c, b)
        || (p[k - 1].Copy? && p[k - 1].a == c && Flowed(p, k - 1, b, p[k - 1].c)))
  }

  /** The address of `b` is among what operation `i` carries. */
  ghost predicate Carries(p: seq<Op>, i: nat, b: Cell)
    requires i < |p|
  {
    match p[i]
    case Store(_, x) => b == x
    case Copy(_, x) => Flowed(p, i, b, x)
    case _ => false
  }

  lemma {:induction false} FlowedNext(p: seq<Op>, k: nat, b: Cell, c: Cell)
    requires k < |p|
    ensures Flowed(p, k + 1, b, c) <==> Flowed(p, k, b, c) || (Writes(p[k], c) && Carries(p, k, b))
  {
  }

  /** Whatever a cell holds has flowed into it. */
  lemma {:induction false} ContentHasFlowed(layout: Layout, regions: nat, p: seq<Op>, k: nat, c: Cell)
    requires Straight(p) && WellFormed(|layout|, regions, p) && k <= |p| && c < |layout|
    ensures var now := After(|layout|, regions, p, k, Start(layout)).ptr;
            |now| == |layout| && (now[c].Some? ==> Flowed(p, k, now[c].value, c))
  {
    if k == 0 {
      assert p[..0] == [];
    } else {
      ContentHasFlowed(layout, regions, p, k - 1, c);
      AfterNext(layout, regions, p, k - 1, Start(layout));
      if p[k - 1].Copy? {
        ContentHasFlowed(layout, regions, p, k - 1, p[k - 1].c);
      }
      var now := After(|layout|, regions, p, k, Start(layout)).ptr;
      if now[c].Some? {
        FlowedNext(p, k - 1, now[c].value, c);
      }
    }
  }

  // ---------------------------------------------------------------- what the analysis decides

  /** Operation `i` carries only cells that are no deeper than the one it writes. */
  ghost predicate CarriesShallow(layout: Layout, p: seq<Op>, i: nat)
    requires i < |p|
  {
    (p[i].Store? || p[i].Copy?) && p[i].a < |layout| ==>
      forall b | 0 <= b < |layout| && Carries(p, i, b) :: layout[b] <= layout[p[i].a]
  }

  ghost predicate FlowsShallow(layout: Layout, p: seq<Op>, k: nat)
    requires k <= |p|
  {
    forall i: nat | i < k :: CarriesShallow(layout, p, i)
  }

  /** What the analysis records for a cell is the depth of the deepest cell that has flowed into it. */
  ghost predicate Records(layout: Layout, p: seq<Op>, k: nat, d: Abstract) {
    |d| == |layout| && forall c | 0 <= c < |layout| :: RecordsAt(layout, p, k, c, d[c])
  }

  ghost predicate RecordsAt(layout: Layout, p: seq<Op>, k: nat, c: Cell, v: Option<nat>) {
    && (v.None? ==> forall b | 0 <= b < |layout| :: !Flowed(p, k, b, c))
    && (v.Some? ==>
          && (forall b | 0 <= b < |layout| && Flowed(p, k, b, c) :: layout[b] <= v.value)
          && exists b :: 0 <= b < |layout| && Flowed(p, k, b, c) && layout[b] == v.value)
  }

  /** The check of an operation reads the depths of what it carries. */
  lemma {:induction false} CheckReadsFlow(layout: Layout, regions: nat, p: seq<Op>, k: nat, d: Abstract)
    requires Straight(p) && k < |p| && WellFormedOp(|layout|, regions, p[k]) && Records(layout, p, k, d)
    ensures AnalyzeOp(layout, regions, p[k], [d], PathMode).Some? <==> CarriesShallow(layout, p, k)
  {
    assert [d][0] == d;
    match p[k]
    case Store(a, x) => assert Carries(p, k, x);
    case Copy(a, x) =>
      assert RecordsAt(layout, p, k, x, d[x]);
      assert forall b :: Carries(p, k, b) <==> Flowed(p, k, b, x);
    case _ =>
  }

  /** And its weak update keeps the record. */
  lemma {:induction false} UpdateRecordsFlow(layout: Layout, regions: nat, p: seq<Op>, k: nat, d: Abstract)
    requires Straight(p) && k < |p| && WellFormedOp(|layout|, regions, p[k]) && Records(layout, p, k, d)
    requires AnalyzeOp(layout, regions, p[k], [d], PathMode).Some?
    ensures var r := AnalyzeOp(layout, regions, p[k], [d], PathMode).value;
            |r| == 1 && Records(layout, p, k + 1, r[0])
  {
    var d' := AnalyzeOp(layout, regions, p[k], [d], PathMode).value[0];
    assert [d][0] == d;
    forall c | 0 <= c < |layout| ensures RecordsAt(layout, p, k + 1, c, d'[c]) {
      assert RecordsAt(layout, p, k, c, d[c]);
      if Writes(p[k], c) {
        WriteRecords(layout, p, k, c, d, d'[c]);
      } else {
        SameRecords(layout, p, k, c, d[c]);
      }
    }
  }

  lemma {:induction false} SameRecords(layout: Layout, p: seq<Op>, k: nat, c: Cell, v: Option<nat>)
    requires k < |p| && !Writes(p[k], c) && RecordsAt(layout, p, k, c, v)
    ensures RecordsAt(layout, p, k + 1, c, v)
  {
    var n := k + 1;
    forall b ensures Flowed(p, n, b, c) <==> Flowed(p, k, b, c) {
      FlowedNext(p, k, b, c);
    }
    if v.Some? {
      var b :| 0 <= b < |layout| && Flowed(p, k, b, c) && layout[b] == v.value;
      assert Flowed(p, k + 1, b, c);
    }
  }

  lemma {:induction false} WriteRecords(layout: Layout, p: seq<Op>, k: nat, c: Cell, d: Abstract, v: Option<nat>)
    requires k < |p| && Records(layout, p, k, d) && c < |layout| && Writes(p[k], c)
    requires p[k].Store? ==> p[k].b < |layout| && v == JoinValue(d[c], Some(layout[p[k].b]))
    requires p[k].Copy? ==> p[k].c < |layout| && v == JoinValue(d[c], d[p[k].c])
    ensures RecordsAt(layout, p, k + 1, c, v)
  {
    var n := k + 1;
    forall b ensures Flowed(p, n, b, c) <==> Flowed(p, k, b, c) || Carries(p, k, b) {
      FlowedNext(p, k, b, c);
    }
    assert RecordsAt(layout, p, k, c, d[c]);
    if p[k].Store? {
      assert Flowed(p, k + 1, p[k].b, c);
    } else {
      var x := p[k].c;
      assert RecordsAt(layout, p, k, x, d[x]);
      assert forall b :: Carries(p, k, b) <==> Flowed(p, k, b, x);
      if v.Some? {
        var w := if v == d[c] then c else x;
        assert RecordsAt(layout, p, k, w, d[w]);
        var b :| 0 <= b < |layout| && Flowed(p, k, b, w) && layout[b] == v.value;
        assert Flowed(p, k + 1, b, c);
      }
    }
  }

  /** Along a path the analysis goes on exactly as long as only shallow cells are carried. */
  lemma {:induction false} PathDecided(layout: Layout, regions: nat, p: seq<Op>, k: nat)
    requires Straight(p) && WellFormed(|layout|, regions, p) && k <= |p|
    ensures Straight(p[..k]) && WellFormed(|layout|, regions, p[..k])
    ensures PathOk(layout, regions, p[..k], NothingKnown(|layout|)) <==> FlowsShallow(layout, p, k)
    ensures PathOk(layout, regions, p[..k], NothingKnown(|layout|)) ==>
              Records(layout, p, k, PathState(layout, regions, p[..k], NothingKnown(|layout|)))
  {
    PrefixOk(|layout|, regions, p, k);
    var d0 := NothingKnown(|layout|);
    if k == 0 {
      assert p[..0] == [] && [d0][0] == d0;
      assert PathState(layout, regions, [], d0) == d0;
      forall c | 0 <= c < |layout| ensures RecordsAt(layout, p, 0, c, d0[c]) {}
    } else {
      PathDecided(layout, regions, p, k - 1);
      PathNext(layout, regions, p, k - 1, d0);
      if PathOk(layout, regions, p[..k - 1], d0) {
        var d := PathState(layout, regions, p[..k - 1], d0);
        CheckReadsFlow(layout, regions, p, k - 1, d);
        if CarriesShallow(layout, p, k - 1) {
          UpdateRecordsFlow(layout, regions, p, k - 1, d);
        }
      }
    }
  }

  lemma {:induction false} PathNext(layout: Layout, regions: nat, p: seq<Op>, k: nat, d0: Abstract)
    requires Straight(p) && WellFormed(|layout|, regions, p) && k < |p| && |d0| == |layout|
    ensures WellFormedOp(|layout|, regions, p[k])
    ensures PathOk(layout, regions, p[..k + 1], d0) <==>
              && PathOk(layout, regions, p[..k], d0)
              && AnalyzeOp(layout, regions, p[k], [PathState(layout, regions, p[..k], d0)], PathMode).Some?
    ensures PathOk(layout, regions, p[..k + 1], d0) ==>
              AnalyzeOp(layout, regions, p[k], [PathState(layout, regions, p[..k], d0)], PathMode).value
              == [PathState(layout, regions, p[..k + 1], d0)]
  {
    PrefixOk(|layout|, regions, p, k);
    PrefixOk(|layout|, regions, p, k + 1);
    var op := p[k];
    assert p[..k + 1] == p[..k] + [op];
    WellFormedConcat(|layout|, regions, p[..k], [op]);
    assert [op][0] == op && [op][1..] == [];
    PathOkConcat(layout, regions, p[..k], [op], d0);
    if PathOk(layout, regions, p[..k], d0) {
      OneOp(layout, regions, op, PathState(layout, regions, p[..k], d0));
    }
  }

  lemma {:induction false} OneOp(layout: Layout, regions: nat, op: Op, d: Abstract)
    requires WellFormedOp(|layout|, regions, op) && !op.Ite? && |d| == |layout|
    ensures PathOk(layout, regions, [op], d) <==> AnalyzeOp(layout, regions, op, [d], PathMode).Some?
    ensures PathOk(layout, regions, [op], d) ==>
              AnalyzeOp(layout, regions, op, [d], PathMode).value == [PathState(layout, regions, [op], d)]
  {
    assert [op][0] == op && [op][1..] == [] && Straight([op]) && WellFormed(|layout|, regions, [op]);
    var r := AnalyzeOp(layout, regions, op, [d], PathMode);
    if r.Some? {
      assert |r.value| == 1 && r.value == [r.value[0]];
      assert Analyze(layout, regions, [op], [d], PathMode) == Analyze(layout, regions, [], r.value, PathMode);
    }
  }

  /**
   Either mode accepts a program exactly if on every path each store and each copy carries only cells no
   deeper than the one it writes.
   */
  lemma {:induction false} AcceptedIffFlowsShallow(layout: Layout, regions: nat, body: seq<Op>, mode: Mode)
    requires WellFormed(|layout|, regions, body)
    ensures Accepts(layout, regions, body, mode) <==> forall p | p in Paths(body) :: FlowsShallow(layout, p, |p|)
  {
    AcceptsPathByPath(layout, regions, body, mode);
    var d := NothingKnown(|layout|);
    forall p | p in Paths(body)
      ensures (WellFormed(|layout|, regions, p) && Accepts(layout, regions, p, mode)) <==> FlowsShallow(layout, p, |p|)
    {
      PathsAreStraight(|layout|, regions, body, p);
      StraightKeepsOneState(layout, regions, p, d, mode);
      PathDecided(layout, regions, p, |p|);
      assert p[..|p|] == p;
    }
  }
}
