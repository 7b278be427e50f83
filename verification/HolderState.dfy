/**
 Holder counts: every object carries a count of the references to it that sticks at its largest
 value, and an object whose count falls to zero is freed on the spot.
 */
module HolderState {
  const HOLD_SAT := 65535

  /** Where a counted reference is kept: a root variable, or the reference field of an object. */
  datatype Loc = Root(k: nat) | Field(p: int)

  /** Objects with their counts, and the counted references; -1 is null. */
  datatype Counts = Counts(objs: map<int, int>, refs: map<Loc, int>)

  function HoldersOf(refs: map<Loc, int>, p: int): set<Loc> {
    set l | l in refs && refs[l] == p
  }

  ghost predicate CountOk(c: Counts, p: int)
    requires p in c.objs
  {
    c.objs[p] == HOLD_SAT || |HoldersOf(c.refs, p)| <= c.objs[p]
  }

  predicate InRange(objs: map<int, int>) {
    forall p | p in objs :: p >= 0 && 0 <= objs[p] <= HOLD_SAT
  }

  /** No reference dangles, and a count that is not saturated is at least the number of references. */
  ghost predicate Sound(c: Counts) {
    && InRange(c.objs)
    && (forall l | l in c.refs && c.refs[l] >= 0 :: c.refs[l] in c.objs)
    && (forall l | l in c.refs && l.Field? :: l.p in c.objs)
    && forall p {:trigger CountOk(c, p)} | p in c.objs :: CountOk(c, p)
  }

  // ---------------------------------------------------------------- the operations

  /** `upd_hold(o, +1)`: sticks at the top. */
  function Raised(n: int): int {
    if n != HOLD_SAT then n + 1 else n
  }

  /** `upd_hold(o, -1)`: neither zero nor the sticky value is lowered. */
  function Lowered(n: int): int {
    if n != 0 && n != HOLD_SAT then n - 1 else n
  }

  /** `init_ref` raises without looking, so the 16-bit count wraps. */
  function Bumped(n: int): int {
    (n + 1) % 65536
  }

  function InitRef(c: Counts, l: Loc, v: int): Counts
    requires v >= 0 ==> v in c.objs
  {
    Counts(if v >= 0 then c.objs[v := Bumped(c.objs[v])] else c.objs, c.refs[l := v])
  }

  /** Is the old value of a store freed: its count falls from one to zero. */
  predicate Dies(objs: map<int, int>, old_: int)
  {
    old_ >= 0 && old_ in objs && objs[old_] != 0 && objs[old_] != HOLD_SAT && objs[old_] - 1 == 0
  }

  /** The old value of a store loses a holder; freed, it takes its own reference with it. */
  function Drop(c: Counts, was: int, rcFree: bool): Counts
    requires was >= 0 ==> was in c.objs
  {
    if was < 0 then c
    else if Dies(c.objs, was) && rcFree then Counts(c.objs - {was}, c.refs - {Field(was)})
    else c.(objs := c.objs[was := Lowered(c.objs[was])])
  }

  /** The new value is counted before the old one is. */
  function StoreHold(c: Counts, l: Loc, v: int, rcFree: bool): Counts
    requires l in c.refs && (v >= 0 ==> v in c.objs) && (c.refs[l] >= 0 ==> c.refs[l] in c.objs)
  {
    Drop(Counts(if v >= 0 then c.objs[v := Raised(c.objs[v])] else c.objs, c.refs[l := v]), c.refs[l], rcFree)
  }

  /** A sweep frees the objects `f`: they and their own references are gone, and no count changes. */
  function Swept(c: Counts, f: set<int>): Counts {
    Counts(c.objs - f, map l | l in c.refs && (l.Field? ==> l.p in c.objs && l.p !in f) :: c.refs[l])
  }

  // ---------------------------------------------------------------- how the number of holders changes

  lemma {:induction false} HoldersAfter(refs: map<Loc, int>, l: Loc, v: int, p: int)
    ensures l in refs && refs[l] == p && v != p ==> |HoldersOf(refs[l := v], p)| == |HoldersOf(refs, p)| - 1
    ensures !(l in refs && refs[l] == p) && v == p ==> |HoldersOf(refs[l := v], p)| == |HoldersOf(refs, p)| + 1
    ensures (l in refs && refs[l] == p <==> v == p) ==> HoldersOf(refs[l := v], p) == HoldersOf(refs, p)
  {
    var a := HoldersOf(refs, p);
    HoldersNow(refs, l, v, p);
    assert l in a <==> l in refs && refs[l] == p;
    assert l in a ==> a - {l} + {l} == a;
  }

  lemma {:induction false} HoldersNow(refs: map<Loc, int>, l: Loc, v: int, p: int)
    ensures HoldersOf(refs[l := v], p) == HoldersOf(refs, p) - {l} + if v == p then {l} else {}
  {
  }

  lemma {:induction false} HoldersFewer(refs: map<Loc, int>, l: Loc, p: int)
    ensures |HoldersOf(refs - {l}, p)| <= |HoldersOf(refs, p)|
  {
    var a, b := HoldersOf(refs, p), HoldersOf(refs - {l}, p);
    assert b == a - {l};
    assert a == b + (a * {l});
  }

  // ---------------------------------------------------------------- soundness

  /** A new object nobody refers to yet. */
  lemma {:induction false} NewObjectSound(c: Counts, p: int)
    requires Sound(c) && p !in c.objs && p >= 0
    ensures Sound(c.(objs := c.objs[p := 0]))
  {
    var w := c.(objs := c.objs[p := 0]);
    forall q | q in w.objs ensures CountOk(w, q) {
      if q != p {
        assert CountOk(c, q);
      } else {
        assert HoldersOf(c.refs, p) == {};
      }
    }
  }

  /**
   `init_ref` keeps the counts sound exactly when the target's count has not stuck: a stuck count
   wraps to zero although there is a reference.
   */
  lemma {:induction false} InitRefSoundIff(c: Counts, l: Loc, v: int)
    requires Sound(c) && l !in c.refs && (l.Field? ==> l.p in c.objs) && (v >= 0 ==> v in c.objs)
    ensures Sound(InitRef(c, l, v)) <==> v < 0 || c.objs[v] != HOLD_SAT
  {
    var w := InitRef(c, l, v);
    if v < 0 || c.objs[v] != HOLD_SAT {
      forall p | p in w.objs ensures CountOk(w, p) {
        assert CountOk(c, p);
        HoldersAfter(c.refs, l, v, p);
      }
    } else {
      assert l in HoldersOf(w.refs, v);
      assert !CountOk(w, v);
    }
  }

  /** A root, or an object that stays, has a reference to an object that a sweep frees. */
  predicate CutsOff(c: Counts, f: set<int>) {
    exists l | l in c.refs :: (l.Field? ==> l.p in c.objs && l.p !in f) && c.refs[l] in f
  }

  lemma {:induction false} HoldersAmong(refs: map<Loc, int>, fewer: map<Loc, int>, p: int)
    requires forall l | l in fewer :: l in refs && fewer[l] == refs[l]
    ensures |HoldersOf(fewer, p)| <= |HoldersOf(refs, p)|
  {
    var a, b := HoldersOf(refs, p), HoldersOf(fewer, p);
    assert b <= a && a == b + (a - b);
  }

  /** A sweep keeps the counts sound exactly if nothing that stays refers to what it frees. */
  lemma {:induction false} SweepSoundIff(c: Counts, f: set<int>)
    requires Sound(c) && f <= c.objs.Keys
    ensures Sound(Swept(c, f)) <==> !CutsOff(c, f)
  {
    var w := Swept(c, f);
    forall p | p in w.objs ensures CountOk(w, p) {
      assert CountOk(c, p);
      HoldersAmong(c.refs, w.refs, p);
    }
    if CutsOff(c, f) {
      var l :| l in c.refs && (l.Field? ==> l.p in c.objs && l.p !in f) && c.refs[l] in f;
      assert l in w.refs && w.refs[l] !in w.objs;
    }
  }

  /** After the first two steps of `store_hold`, the target has been counted and the old value not yet. */
  lemma {:induction false} RaisedOk(c: Counts, l: Loc, v: int, objs1: map<int, int>, p: int)
    requires Sound(c) && l in c.refs && p in c.objs && (v >= 0 ==> v in c.objs)
    requires objs1 == if v >= 0 then c.objs[v := Raised(c.objs[v])] else c.objs
    ensures p in objs1 && 0 <= objs1[p] <= HOLD_SAT
    ensures objs1[p] == HOLD_SAT || |HoldersOf(c.refs[l := v], p)| + (if p == c.refs[l] then 1 else 0) <= objs1[p]
  {
    assert CountOk(c, p);
    HoldersAfter(c.refs, l, v, p);
  }

  /**
   `store_hold` keeps the counts sound, whatever is stored where, a reference over itself included,
   and what it frees nobody refers to.
   */
  lemma {:induction false} StoreHoldSound(c: Counts, l: Loc, v: int, rcFree: bool)
    requires Sound(c) && l in c.refs && (v >= 0 ==> v in c.objs)
    ensures Sound(StoreHold(c, l, v, rcFree))
    ensures forall p | p in c.objs && p !in StoreHold(c, l, v, rcFree).objs ::
              p == c.refs[l] && HoldersOf(c.refs[l := v], p) == {}
  {
    var w, was := StoreHold(c, l, v, rcFree), c.refs[l];
    var objs1 := if v >= 0 then c.objs[v := Raised(c.objs[v])] else c.objs;
    forall p | p in c.objs ensures p in objs1 && 0 <= objs1[p] <= HOLD_SAT &&
        (objs1[p] == HOLD_SAT || |HoldersOf(c.refs[l := v], p)| + (if p == was then 1 else 0) <= objs1[p]) {
      RaisedOk(c, l, v, objs1, p);
    }
    forall p | p in w.objs ensures CountOk(w, p) {
      HoldersFewer(c.refs[l := v], Field(was), p);
    }
    if Dies(objs1, was) && rcFree {
      assert |HoldersOf(c.refs[l := v], was)| == 0;
      NobodyLeft(c.refs[l := v], was);
    }
  }

  lemma {:induction false} NobodyLeft(refs: map<Loc, int>, p: int)
    requires |HoldersOf(refs, p)| == 0
    ensures forall k | k in refs :: refs[k] != p
  {
    forall k | k in refs ensures refs[k] != p {
      assert k !in HoldersOf(refs, p);
    }
  }

  /** In every sound state the count of an object tells when nobody can refer to it. */
  lemma {:induction false} ZeroMeansUnheld(c: Counts, p: int)
    requires Sound(c) && p in c.objs && c.objs[p] == 0
    ensures forall l | l in c.refs :: c.refs[l] != p
  {
    assert CountOk(c, p);
    NobodyLeft(c.refs, p);
  }

  // ---------------------------------------------------------------- whole runs

  /**
   What happens to the counts: an object is made, a first reference written, a reference overwritten,
   or a sweep frees some objects.
   */
  datatype Op = Make(p: int) | Init(l: Loc, v: int) | Store(l: Loc, v: int) | Sweep(f: set<int>)

  predicate CanDo(c: Counts, op: Op) {
    match op
    case Make(p) => p >= 0 && p !in c.objs
    case Init(l, v) => l !in c.refs && (l.Field? ==> l.p in c.objs) && (v >= 0 ==> v in c.objs)
    case Store(l, v) => l in c.refs && (v >= 0 ==> v in c.objs) && (c.refs[l] >= 0 ==> c.refs[l] in c.objs)
    case Sweep(f) => f <= c.objs.Keys
  }

  function Do(c: Counts, op: Op, rcFree: bool): Counts
    requires CanDo(c, op)
  {
    match op
    case Make(p) => c.(objs := c.objs[p := 0])
    case Init(l, v) => InitRef(c, l, v)
    case Store(l, v) => StoreHold(c, l, v, rcFree)
    case Sweep(f) => Swept(c, f)
  }

  /** A first reference to an object whose count has stuck, or a sweep that frees a referent. */
  predicate Harms(c: Counts, op: Op) {
    match op
    case Init(l, v) => v in c.objs && v >= 0 && c.objs[v] == HOLD_SAT
    case Sweep(f) => CutsOff(c, f)
    case _ => false
  }

  /** The states a program goes through. */
  ghost predicate IsRun(cs: seq<Counts>, ops: seq<Op>, rcFree: bool) {
    && |cs| == |ops| + 1
    && forall i {:trigger ops[i]} | 0 <= i < |ops| :: CanDo(cs[i], ops[i]) && cs[i + 1] == Do(cs[i], ops[i], rcFree)
  }

  /** One operation keeps the counts sound exactly if it is neither of these; then it frees no referent. */
  lemma {:induction false} OpSoundIff(c: Counts, op: Op, rcFree: bool)
    requires Sound(c) && CanDo(c, op)
    ensures Sound(Do(c, op, rcFree)) <==> !Harms(c, op)
    ensures var w := Do(c, op, rcFree);
            !Harms(c, op) ==> forall p, l | p in c.objs && p !in w.objs && l in w.refs :: w.refs[l] != p
  {
    match op
    case Make(p) => NewObjectSound(c, p);
    case Init(l, v) => InitRefSoundIff(c, l, v);
    case Store(l, v) =>
      StoreHoldSound(c, l, v, rcFree);
      FreedIsUnheld(c, l, v, rcFree);
    case Sweep(f) => SweepSoundIff(c, f);
  }

  lemma {:induction false} FreedIsUnheld(c: Counts, l: Loc, v: int, rcFree: bool)
    requires Sound(c) && l in c.refs && (v >= 0 ==> v in c.objs)
    ensures var w := StoreHold(c, l, v, rcFree);
            forall p, k | p in c.objs && p !in w.objs && k in w.refs :: w.refs[k] != p
  {
    StoreHoldSound(c, l, v, rcFree);
    var w := StoreHold(c, l, v, rcFree);
    forall p, k | p in c.objs && p !in w.objs && k in w.refs ensures w.refs[k] != p {
      assert p in c.objs && p !in w.objs ==> HoldersOf(c.refs[l := v], p) == {};
      assert c.refs[l := v][k] == w.refs[k] && (w.refs[k] == p ==> k in HoldersOf(c.refs[l := v], p));
    }
  }

  /**
   Over any run from sound counts, they stay sound all along exactly if no first reference is ever
   written to an object whose count has stuck and no sweep frees an object that is still referred to.
   */
  lemma {:induction false} RunSoundIff(cs: seq<Counts>, ops: seq<Op>, rcFree: bool)
    requires IsRun(cs, ops, rcFree) && Sound(cs[0])
    ensures (forall i {:trigger cs[i]} | 0 <= i < |cs| :: Sound(cs[i])) <==>
            (forall i {:trigger ops[i]} | 0 <= i < |ops| :: !Harms(cs[i], ops[i]))
  {
    if forall i {:trigger cs[i]} | 0 <= i < |cs| :: Sound(cs[i]) {
      forall i | 0 <= i < |ops| ensures !Harms(cs[i], ops[i]) {
        assert Sound(cs[i]) && Sound(cs[i + 1]);
        OpSoundIff(cs[i], ops[i], rcFree);
      }
    }
    if forall i {:trigger ops[i]} | 0 <= i < |ops| :: !Harms(cs[i], ops[i]) {
      forall i | 0 <= i < |cs| ensures Sound(cs[i]) {
        SoundUpTo(cs, ops, rcFree, i);
      }
    }
  }

  lemma {:induction false} SoundUpTo(cs: seq<Counts>, ops: seq<Op>, rcFree: bool, i: nat)
    requires IsRun(cs, ops, rcFree) && Sound(cs[0]) && i < |cs|
    requires forall k {:trigger ops[k]} | 0 <= k < i :: !Harms(cs[k], ops[k])
    ensures Sound(cs[i])
    decreases i
  {
    if i > 0 {
      SoundUpTo(cs, ops, rcFree, i - 1);
      assert !Harms(cs[i - 1], ops[i - 1]);
      OpSoundIff(cs[i - 1], ops[i - 1], rcFree);
    }
  }

  /** In such a run no reference at any moment leads to an object that has been freed in the step before. */
  lemma {:induction false} RunFreesUnheld(cs: seq<Counts>, ops: seq<Op>, rcFree: bool, i: nat, p: int, l: Loc)
    requires IsRun(cs, ops, rcFree) && Sound(cs[0]) && i < |ops|
    requires forall k {:trigger ops[k]} | 0 <= k < |ops| :: !Harms(cs[k], ops[k])
    requires p in cs[i].objs && p !in cs[i + 1].objs && l in cs[i + 1].refs
    ensures cs[i + 1].refs[l] != p
  {
    SoundUpTo(cs, ops, rcFree, i);
    OpSoundIff(cs[i], ops[i], rcFree);
  }

  // ---------------------------------------------------------------- a count that wraps

  /** One object, and `k` root variables made to refer to it one after the other. */
  function AfterInits(k: nat): (c: Counts)
    ensures 0 in c.objs && forall n: nat :: Root(n) in c.refs <==> n < k
  {
    if k == 0 then Counts(map[0 := 0], map[]) else InitRef(AfterInits(k - 1), Root(k - 1), 0)
  }

  lemma {:induction false} InitsCount(k: nat)
    requires k <= HOLD_SAT
    ensures AfterInits(k).objs == map[0 := k] && Sound(AfterInits(k))
  {
    if k == 0 {
      NoneYet();
    } else {
      InitsCount(k - 1);
      InitCounts(AfterInits(k - 1), k - 1, Root(k - 1));
    }
  }

  lemma {:induction false} NoneYet()
    ensures Sound(Counts(map[0 := 0], map[]))
  {
    var c := Counts(map[0 := 0], map[]);
    assert HoldersOf(c.refs, 0) == {};
    assert CountOk(c, 0);
  }

  lemma {:induction false} InitCounts(c: Counts, k: nat, l: Loc)
    requires c.objs == map[0 := k] && k < HOLD_SAT && Sound(c) && l !in c.refs && l.Root?
    ensures InitRef(c, l, 0).objs == map[0 := k + 1] && Sound(InitRef(c, l, 0))
  {
    InitRefSoundIff(c, l, 0);
  }

  /**
   After 65535 first references the count has stuck and is sound; one more makes it zero, although
   there are references.
   */
  lemma {:induction false} StuckCountWraps()
    ensures Sound(AfterInits(HOLD_SAT)) && AfterInits(HOLD_SAT).objs[0] == HOLD_SAT
    ensures !Sound(AfterInits(HOLD_SAT + 1)) && AfterInits(HOLD_SAT + 1).objs[0] == 0
    ensures AfterInits(HOLD_SAT + 1).refs[Root(HOLD_SAT)] == 0
  {
    InitsCount(HOLD_SAT);
    OneMoreInit(HOLD_SAT);
    InitRefSoundIff(AfterInits(HOLD_SAT), Root(HOLD_SAT), 0);
  }

  lemma {:induction false} OneMoreInit(k: nat)
    ensures AfterInits(k + 1) == InitRef(AfterInits(k), Root(k), 0)
  {
  }
}
