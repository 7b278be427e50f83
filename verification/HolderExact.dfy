/**
 When holder counts are not only safe but exact: a count that has not stuck is the number of references,
 so an object goes with its last one.
 */
module HolderExact {
  import opened HolderState

  /** The object's count has stuck or is the number of references to it. */
  ghost predicate Tight(c: Counts, p: int)
    requires p in c.objs
  {
    c.objs[p] == HOLD_SAT || c.objs[p] == |HoldersOf(c.refs, p)|
  }

  ghost predicate Exact(c: Counts) {
    Sound(c) && forall p {:trigger Tight(c, p)} | p in c.objs :: Tight(c, p)
  }

  // ---------------------------------------------------------------- new objects and first references

  lemma {:induction false} MakeExact(c: Counts, p: int)
    requires Exact(c) && p !in c.objs && p >= 0
    ensures Exact(c.(objs := c.objs[p := 0]))
  {
    NewObjectSound(c, p);
    var w := c.(objs := c.objs[p := 0]);
    forall q | q in w.objs ensures Tight(w, q) {
      if q != p {
        assert Tight(c, q);
      } else {
        assert HoldersOf(c.refs, p) == {};
      }
    }
  }

  /** A first reference keeps the counts exact exactly if the target's count has not stuck. */
  lemma {:induction false} InitExactIff(c: Counts, l: Loc, v: int)
    requires Exact(c) && l !in c.refs && (l.Field? ==> l.p in c.objs) && (v >= 0 ==> v in c.objs)
    ensures Exact(InitRef(c, l, v)) <==> v < 0 || c.objs[v] != HOLD_SAT
  {
    InitRefSoundIff(c, l, v);
    var w := InitRef(c, l, v);
    if v < 0 || c.objs[v] != HOLD_SAT {
      forall p | p in w.objs ensures Tight(w, p) {
        assert Tight(c, p);
        HoldersAfter(c.refs, l, v, p);
      }
    }
  }

  // ---------------------------------------------------------------- overwriting a reference

  /** The counts once the new value of a store has been counted. */
  function Counted(objs: map<int, int>, v: int): map<int, int>
    requires v >= 0 ==> v in objs
  {
    if v >= 0 then objs[v := Raised(objs[v])] else objs
  }

  /** Then an object's count has stuck or is the number of references, with the old value still counted. */
  lemma {:induction false} CountedTight(c: Counts, l: Loc, v: int, p: int)
    requires Exact(c) && l in c.refs && p in c.objs && (v >= 0 ==> v in c.objs)
    ensures var n := Counted(c.objs, v);
            && p in n && 0 <= n[p] <= HOLD_SAT
            && (n[p] == HOLD_SAT || n[p] == |HoldersOf(c.refs[l := v], p)| + if p == c.refs[l] then 1 else 0)
  {
    assert Tight(c, p);
    HoldersAfter(c.refs, l, v, p);
  }

  /**
   From exact counts a store frees the old target exactly if objects are freed at all, its count has not
   stuck and no reference to it is left; it frees nothing else.
   */
  lemma {:induction false} StoreFreesIff(c: Counts, l: Loc, v: int, rcFree: bool, p: int)
    requires Exact(c) && l in c.refs && (v >= 0 ==> v in c.objs) && p in c.objs
    ensures p !in StoreHold(c, l, v, rcFree).objs <==>
              rcFree && p == c.refs[l] && c.objs[p] != HOLD_SAT && HoldersOf(c.refs[l := v], p) == {}
  {
    CountedTight(c, l, v, p);
    var refs := c.refs[l := v];
    assert p == v ==> l in HoldersOf(refs, p);
    assert |HoldersOf(refs, p)| == 0 <==> HoldersOf(refs, p) == {};
  }

  /** An object that has gone had a reference to one that is there and whose count has not stuck. */
  ghost predicate Leaks(refs: map<Loc, int>, before: map<int, int>, after: map<int, int>) {
    exists p :: p in before && p !in after && LeaksFrom(refs, after, p)
  }

  ghost predicate LeaksFrom(refs: map<Loc, int>, after: map<int, int>, p: int) {
    Field(p) in refs && refs[Field(p)] in after && after[refs[Field(p)]] != HOLD_SAT
  }

  /** A store keeps the counts exact exactly if what it frees had no reference that was counted. */
  lemma {:induction false} StoreExactIff(c: Counts, l: Loc, v: int, rcFree: bool)
    requires Exact(c) && l in c.refs && (v >= 0 ==> v in c.objs)
    ensures var w := StoreHold(c, l, v, rcFree);
            Exact(w) <==> !Leaks(c.refs[l := v], c.objs, w.objs)
  {
    StoreHoldSound(c, l, v, rcFree);
    var w, was, refs := StoreHold(c, l, v, rcFree), c.refs[l], c.refs[l := v];
    forall p | p in c.objs ensures p in Counted(c.objs, v) && StoreTight(c, l, v, w, p) {
      StoreTightHolds(c, l, v, rcFree, p);
    }
    if was >= 0 && was !in w.objs {
      StoreFreesIff(c, l, v, rcFree, was);
      forall p | p in w.objs
        ensures Tight(w, p) <==> !(Field(was) in refs && refs[Field(was)] == p && w.objs[p] != HOLD_SAT)
      {
        assert StoreTight(c, l, v, w, p);
        HoldersWithout(refs, Field(was), p);
      }
      forall p | p in c.objs && p !in w.objs ensures p == was {
        StoreFreesIff(c, l, v, rcFree, p);
      }
      if LeaksFrom(refs, w.objs, was) {
        assert Leaks(refs, c.objs, w.objs) && !Tight(w, refs[Field(was)]);
      } else {
        assert forall p | p in w.objs :: Tight(w, p);
      }
    } else {
      forall p | p in c.objs ensures p in w.objs {
        StoreFreesIff(c, l, v, rcFree, p);
      }
      forall p | p in w.objs ensures Tight(w, p) {
        assert StoreTight(c, l, v, w, p);
      }
    }
  }

  /** Before the references of a freed object are forgotten, the counts are those of the new references. */
  ghost predicate StoreTight(c: Counts, l: Loc, v: int, w: Counts, p: int) {
    p in w.objs ==> w.objs[p] == HOLD_SAT || w.objs[p] == |HoldersOf(c.refs[l := v], p)|
  }

  lemma {:induction false} StoreTightHolds(c: Counts, l: Loc, v: int, rcFree: bool, p: int)
    requires Exact(c) && l in c.refs && (v >= 0 ==> v in c.objs) && p in c.objs
    ensures p in Counted(c.objs, v) && StoreTight(c, l, v, StoreHold(c, l, v, rcFree), p)
  {
    CountedTight(c, l, v, p);
  }

  lemma {:induction false} HoldersWithout(refs: map<Loc, int>, l: Loc, p: int)
    ensures |HoldersOf(refs - {l}, p)| == |HoldersOf(refs, p)| - if l in refs && refs[l] == p then 1 else 0
  {
    var a, b := HoldersOf(refs, p), HoldersOf(refs - {l}, p);
    assert b == a - {l};
    assert l in a <==> l in refs && refs[l] == p;
  }

  // ---------------------------------------------------------------- sweeps

  lemma {:induction false} SweepExactIff(c: Counts, f: set<int>)
    requires Exact(c) && f <= c.objs.Keys
    ensures Exact(Swept(c, f)) <==> !CutsOff(c, f) && !Leaks(c.refs, c.objs, Swept(c, f).objs)
  {
    SweepSoundIff(c, f);
    var w := Swept(c, f);
    forall p | p in w.objs
      ensures Tight(w, p) <==> w.objs[p] == HOLD_SAT || HoldersOf(w.refs, p) == HoldersOf(c.refs, p)
    {
      assert Tight(c, p);
      SubsetSize(HoldersOf(w.refs, p), HoldersOf(c.refs, p));
    }
    forall p | p in w.objs
      ensures HoldersOf(w.refs, p) != HoldersOf(c.refs, p) <==>
              exists q :: q in c.objs && q !in w.objs && Field(q) in c.refs && c.refs[Field(q)] == p
    {
      LostHolder(c, f, p);
    }
    if Leaks(c.refs, c.objs, w.objs) {
      var q :| q in c.objs && q !in w.objs && LeaksFrom(c.refs, w.objs, q);
      assert !Tight(w, c.refs[Field(q)]);
    }
    if !CutsOff(c, f) && !Leaks(c.refs, c.objs, w.objs) {
      forall p | p in w.objs ensures Tight(w, p) {
        assert forall q | q in c.objs && q !in w.objs :: !LeaksFrom(c.refs, w.objs, q);
      }
    }
  }

  lemma {:induction false} SubsetSize(a: set<Loc>, b: set<Loc>)
    requires a <= b
    ensures |a| == |b| <==> a == b
  {
    assert b == a + (b - a);
  }

  lemma {:induction false} LostHolder(c: Counts, f: set<int>, p: int)
    requires Sound(c) && f <= c.objs.Keys
    ensures var w := Swept(c, f);
            HoldersOf(w.refs, p) != HoldersOf(c.refs, p) <==>
            exists q :: q in c.objs && q !in w.objs && Field(q) in c.refs && c.refs[Field(q)] == p
  {
    var w := Swept(c, f);
    if HoldersOf(w.refs, p) != HoldersOf(c.refs, p) {
      var l :| l in HoldersOf(c.refs, p) && l !in HoldersOf(w.refs, p);
      assert l in c.refs && l !in w.refs && l == Field(l.p);
    }
    if q :| q in c.objs && q !in w.objs && Field(q) in c.refs && c.refs[Field(q)] == p {
      assert Field(q) in HoldersOf(c.refs, p) && Field(q) !in HoldersOf(w.refs, p);
    }
  }

  // ---------------------------------------------------------------- whole runs

  /** The references there are right after the operation's writes. */
  function RefsWritten(c: Counts, op: Op): map<Loc, int> {
    if op.Store? || op.Init? then c.refs[op.l := op.v] else c.refs
  }

  /** The operation frees an object that had a counted reference: nothing lowers that count. */
  ghost predicate Wastes(c: Counts, op: Op, rcFree: bool)
    requires CanDo(c, op)
  {
    Leaks(RefsWritten(c, op), c.objs, Do(c, op, rcFree).objs)
  }

  /** An operation keeps exact counts exact exactly if it does no harm and wastes no reference. */
  lemma {:induction false} OpExactIff(c: Counts, op: Op, rcFree: bool)
    requires Exact(c) && CanDo(c, op)
    ensures Exact(Do(c, op, rcFree)) <==> !Harms(c, op) && !Wastes(c, op, rcFree)
  {
    match op
    case Make(p) => MakeExact(c, p);
    case Init(l, v) => InitExactIff(c, l, v);
    case Store(l, v) => StoreExactIff(c, l, v, rcFree);
    case Sweep(f) => SweepExactIff(c, f);
  }

  /** Up to moment `i` nothing harms the counts or wastes a reference. */
  ghost predicate GoodTo(cs: seq<Counts>, ops: seq<Op>, rcFree: bool, i: nat)
    requires IsRun(cs, ops, rcFree) && i <= |ops|
  {
    forall k {:trigger ops[k]} | 0 <= k < i :: !Harms(cs[k], ops[k]) && !Wastes(cs[k], ops[k], rcFree)
  }

  /** Over any run from exact counts, they are exact all along exactly if no operation does harm or waste. */
  lemma {:induction false} RunExactIff(cs: seq<Counts>, ops: seq<Op>, rcFree: bool)
    requires IsRun(cs, ops, rcFree) && Exact(cs[0])
    ensures (forall i {:trigger cs[i]} | 0 <= i < |cs| :: Exact(cs[i])) <==> GoodTo(cs, ops, rcFree, |ops|)
  {
    if forall i {:trigger cs[i]} | 0 <= i < |cs| :: Exact(cs[i]) {
      forall k | 0 <= k < |ops| ensures !Harms(cs[k], ops[k]) && !Wastes(cs[k], ops[k], rcFree) {
        assert Exact(cs[k]) && Exact(cs[k + 1]);
        OpExactIff(cs[k], ops[k], rcFree);
      }
    }
    if GoodTo(cs, ops, rcFree, |ops|) {
      forall i | 0 <= i < |cs| ensures Exact(cs[i]) {
        ExactUpTo(cs, ops, rcFree, i);
      }
    }
  }

  lemma {:induction false} ExactUpTo(cs: seq<Counts>, ops: seq<Op>, rcFree: bool, i: nat)
    requires IsRun(cs, ops, rcFree) && Exact(cs[0]) && i <= |ops| && GoodTo(cs, ops, rcFree, i)
    ensures Exact(cs[i])
    decreases i
  {
    if i > 0 {
      ExactUpTo(cs, ops, rcFree, i - 1);
      assert !Harms(cs[i - 1], ops[i - 1]);
      OpExactIff(cs[i - 1], ops[i - 1], rcFree);
    }
  }

  /**
   In such a run a store frees an object exactly at the moment its last reference goes, unless its count
   has stuck.
   */
  lemma {:induction false} RunFreesAtOnce(cs: seq<Counts>, ops: seq<Op>, i: nat, p: int)
    requires IsRun(cs, ops, true) && Exact(cs[0]) && i < |ops| && GoodTo(cs, ops, true, i)
    requires ops[i].Store? && p in cs[i].objs && cs[i].objs[p] != HOLD_SAT && cs[i].refs[ops[i].l] == p
    ensures var w := cs[i + 1]; p !in w.objs <==> forall l | l in w.refs :: w.refs[l] != p
  {
    ExactUpTo(cs, ops, true, i);
    var c, l, v := cs[i], ops[i].l, ops[i].v;
    StoreFreesIff(c, l, v, true, p);
    FreedIsUnheld(c, l, v, true);
    if p in cs[i + 1].objs {
      var k :| k in HoldersOf(c.refs[l := v], p);
      assert k in cs[i + 1].refs by {
        StoreKeepsOthers(c, l, v, p, k);
      }
    }
  }

  lemma {:induction false} StoreKeepsOthers(c: Counts, l: Loc, v: int, p: int, k: Loc)
    requires Exact(c) && l in c.refs && (v >= 0 ==> v in c.objs) && p in c.objs && p == c.refs[l]
    requires p in StoreHold(c, l, v, true).objs && k in c.refs[l := v]
    ensures k in StoreHold(c, l, v, true).refs && StoreHold(c, l, v, true).refs[k] == c.refs[l := v][k]
  {
  }
}
