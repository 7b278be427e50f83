/**
 The slab allocator of the prototype: per-slab bitmaps and free list, a sweep by words, and holder
 counts that stick once saturated.
 */
module SlabHeap {
  import B = BitWord
  import S = SlabState
  import H = HolderState
  import E = HolderExact

  /** `OutOfBounds` stands for a slot number past the end of the slab, which in C is undefined. */
  datatype AllocResult = Allocated(p: int) | OutOfBounds

  class Slab {
    const base: nat
    const shift: nat
    const rid: nat
    const nslots: nat
    var occ: seq<bv64>
    var mark: seq<bv64>
    var rsbit: seq<bv64>
    var hold: seq<int>
    var heads: seq<int>
    var freelist: int
    var used: int
    ghost var chain: seq<int>

    ghost function State(): S.Slab
      reads this
    {
      S.Slab(nslots, B.Sets(occ), B.Sets(mark), B.Sets(rsbit), hold, heads, freelist, used, chain)
    }

    ghost predicate Valid()
      reads this
    {
      S.Placed(base, shift, State())
    }

    ghost function Occupied(): set<int>
      reads this`occ
    {
      S.Bits(B.Sets(occ))
    }

    ghost function Marks(): set<int>
      reads this`mark
    {
      S.Bits(B.Sets(mark))
    }

    /** `slab_new`: every slot is free, and the free list runs through them in order. */
    constructor (base: nat, rid: nat, slotSize: nat)
      requires base % S.SLAB_SIZE == 0
      ensures Valid() && this.base == base && this.rid == rid && Occupied() == {} && Marks() == {}
      ensures S.Pow2(shift) >= slotSize && (shift > 0 ==> S.Pow2(shift - 1) < slotSize)
      ensures chain == seq(nslots, i => i) && State() == S.Fresh(nslots)
    {
      this.base, this.rid := base, rid;
      var k := ShiftFor(slotSize);
      var n := S.SlotsOf(k);
      shift, nslots := k, n;
      var zeros := B.Zeros((n + 63) / 64);
      occ, mark, rsbit := zeros, zeros, zeros;
      hold, heads := seq(n, _ => 0), S.FirstHeads(n);
      freelist, used, chain := if n > 0 then 0 else -1, 0, seq(n, i => i);
      new;
      S.FreshInv(nslots);
      assert State() == S.Fresh(nslots);
    }

    /** The tail of `r2_alloc`: the head of the free list is taken. */
    method Take() returns (i: int)
      requires Valid() && freelist >= 0
      modifies this`freelist, this`occ, this`used, this`chain
      ensures Valid() && i == old(freelist) && 0 <= i < nslots && i !in old(Occupied())
      ensures State() == S.Taken(old(State())) && Occupied() == old(Occupied()) + {i}
    {
      S.TakenKeepsInv(State());
      S.InWordsIff(B.Sets(occ), freelist);
      i := PopHead();
    }

    method PopHead() returns (i: int)
      requires 0 <= freelist < |heads| && freelist < 64 * |occ| && chain != []
      modifies this`freelist, this`occ, this`used, this`chain
      ensures i == old(freelist) && State() == S.Taken(old(State()))
    {
      i := freelist;
      freelist := heads[i];
      occ := B.SetIn(occ, i);
      used := used + 1;
      chain := chain[1..];
    }

    /** `r2_free_slot`, but for the region's byte count. */
    method Free(i: int)
      requires Valid() && i in Occupied()
      modifies this`heads, this`freelist, this`occ, this`rsbit, this`hold, this`used, this`chain
      ensures Valid() && Occupied() == old(Occupied()) - {i} && 0 <= i < nslots
      ensures State() == S.Freed(old(State()), i)
    {
      S.InWordsIff(B.Sets(occ), i);
      S.FreedKeepsInv(State(), i);
      PushHead(i);
    }

    method PushHead(i: int)
      requires 0 <= i < |heads| == |hold| && i < 64 * |occ| && i < 64 * |rsbit|
      modifies this`heads, this`freelist, this`occ, this`rsbit, this`hold, this`used, this`chain
      ensures State() == S.Freed(old(State()), i)
    {
      heads := heads[i := freelist];
      freelist := i;
      occ := B.ClearIn(occ, i);
      rsbit := B.ClearIn(rsbit, i);
      hold := hold[i := 0];
      used := used - 1;
      chain := [i] + chain;
    }

    /** `r2_mark`. */
    method Mark(i: int)
      requires Valid() && 0 <= i < nslots
      modifies this`mark
      ensures Valid() && Marks() == old(Marks()) + {i}
    {
      ghost var s := State();
      S.BitSet(B.Sets(mark), i);
      mark := B.SetIn(mark, i);
      S.SameButMarks(s, State());
    }

    /** `rs_add_shard`: an occupied slot's in-edge bit. */
    method AddEdge(i: int)
      requires Valid() && i in Occupied()
      modifies this`rsbit
      ensures Valid() && S.Bits(B.Sets(rsbit)) == S.Bits(old(B.Sets(rsbit))) + {i}
    {
      S.InWordsIff(B.Sets(occ), i);
      S.InWordsIff(B.Sets(rsbit), i);
      S.BitSet(B.Sets(rsbit), i);
      var known := B.TestIn(rsbit, i);
      if known {
        assert S.Bits(B.Sets(rsbit)) + {i} == S.Bits(B.Sets(rsbit));
        return;
      }
      S.SameButRsbit(State(), State().(rsbit := S.WithBit(B.Sets(rsbit), i)), i);
      rsbit := B.SetIn(rsbit, i);
    }

    /** One word of the sweep: its dead slots are freed, lowest first. */
    method SweepWord(w: nat, ghost f0: set<int>, ghost s0: S.Slab) returns (freed: nat, ghost f: set<int>)
      requires Valid() && w < |occ| && f0 !! Occupied() && S.KeptSlots(s0, State())
      modifies this`heads, this`freelist, this`occ, this`rsbit, this`hold, this`used, this`chain
      ensures Valid() && w < |mark| && freed == |f| - |f0| && S.KeptSlots(s0, State())
      ensures S.WordProgress(old(Occupied()) + f0, Occupied(), f0, f, B.Bits(mark[w]), w, {})
    {
      S.WordStart(State(), w, f0);
      var dead := B.Unmarked(occ[w], mark[w]);
      freed, f := FreeAllDead(w, dead, Occupied() + f0, f0, B.Bits(mark[w]), s0);
    }

    /** The slots of the dead bits of a word are freed, lowest first. */
    method FreeAllDead(w: nat, dead0: bv64, ghost o0: set<int>, ghost f0: set<int>, ghost marked: set<int>,
          ghost s0: S.Slab) returns (freed: nat, ghost f: set<int>)
      requires Valid() && S.KeptSlots(s0, State())
      requires S.WordProgress(o0, Occupied(), f0, f0, marked, w, B.Bits(dead0)) && (dead0 == 0 <==> B.Bits(dead0) == {})
      modifies this`heads, this`freelist, this`occ, this`rsbit, this`hold, this`used, this`chain
      ensures Valid() && freed == |f| - |f0| && S.KeptSlots(s0, State())
      ensures S.WordProgress(o0, Occupied(), f0, f, marked, w, {})
    {
      var dead := dead0;
      f, freed := f0, 0;
      while dead != 0
        invariant Valid() && freed == |f| - |f0| && S.KeptSlots(s0, State())
        invariant S.WordProgress(o0, Occupied(), f0, f, marked, w, B.Bits(dead))
        invariant dead == 0 <==> B.Bits(dead) == {}
        decreases |B.Bits(dead)|
      {
        ghost var d := B.Bits(dead);
        var b;
        b, dead := B.PopLowest(dead);
        f := FreeDead(w, b, o0, f0, f, marked, d, s0);
        freed := freed + 1;
      }
    }

    /** The slot of a dead bit is freed. */
    method FreeDead(w: nat, b: nat, ghost o0: set<int>, ghost f0: set<int>, ghost f: set<int>, ghost marked: set<int>,
          ghost d: set<int>, ghost s0: S.Slab) returns (ghost g: set<int>)
      requires Valid() && S.KeptSlots(s0, State()) && b in d
      requires S.WordProgress(o0, Occupied(), f0, f, marked, w, d)
      modifies this`heads, this`freelist, this`occ, this`rsbit, this`hold, this`used, this`chain
      ensures Valid() && S.KeptSlots(s0, State()) && |g| == |f| + 1
      ensures S.WordProgress(o0, Occupied(), f0, g, marked, w, d - {b})
    {
      var i := w * 64 + b;
      S.WordStep(o0, Occupied(), f0, f, marked, w, d, b, i);
      S.StepFrees(s0, State(), i);
      Free(i);
      g := f + {i};
    }

    /** All words of the bitmap, in order. */
    method SweepWords() returns (freed: nat)
      requires Valid()
      modifies this`heads, this`freelist, this`occ, this`rsbit, this`hold, this`used, this`chain
      ensures Valid() && Occupied() == old(Occupied()) * Marks()
      ensures freed == |old(Occupied()) - Marks()| && S.KeptSlots(old(State()), State())
    {
      ghost var o0, s0 := Occupied(), State();
      ghost var f: set<int> := {};
      S.NothingFreed(s0);
      freed := 0;
      var w := 0;
      while w < |occ|
        invariant Valid() && w <= |occ| && freed == |f| && S.KeptSlots(s0, State())
        invariant S.SweptBelow(o0, Occupied(), f, Marks(), w)
      {
        ghost var g, o := f, Occupied();
        var n;
        n, f := SweepWord(w, f, s0);
        S.SweptMore(o0, o, Occupied(), g, f, B.Sets(mark), w);
        freed := freed + n;
        w := w + 1;
      }
      S.AllSwept(State(), o0, f, w);
    }

    method ClearMarks()
      requires Valid()
      modifies this`mark
      ensures Valid() && Marks() == {}
    {
      ghost var s := State();
      mark := B.Zeros(|mark|);
      S.SameButMarks(s, State());
    }

    /** The sweep of one slab: what is occupied and not marked is freed, and the marks are cleared. */
    method Sweep() returns (freed: nat)
      requires Valid()
      modifies this
      ensures Valid() && Occupied() == old(Occupied()) * old(Marks()) && Marks() == {}
      ensures freed == |old(Occupied()) - old(Marks())| && S.KeptSlots(old(State()), State())
    {
      freed := SweepWords();
      ghost var w := State();
      ClearMarks();
      S.KeptIgnoresMarks(old(State()), w, State());
    }

    /** The recount after a sweep: word by word, as many slots as there are one bits. */
    /** Is `p` the address of an occupied slot of this slab. */
    predicate Holds(p: int)
      reads this`occ
    {
      var i := S.SlotOf(base, shift, p);
      0 <= i < nslots && i < 64 * |occ| && p == S.SlotAddress(base, shift, i) && B.Has(occ[i / 64], i % 64)
    }

    lemma {:induction false} HoldsIff(p: int, objs: map<int, int>)
      requires Valid() && S.ObjsMatch(objs, base, shift, State()) && S.SlabOf(p) == base
      ensures Holds(p) ==> p in objs
      ensures 0 <= S.SlotOf(base, shift, p) < nslots && p == S.SlotAddress(base, shift, S.SlotOf(base, shift, p)) ==>
                (Holds(p) <==> p in objs)
    {
      var i := S.SlotOf(base, shift, p);
      if 0 <= i < nslots && p == S.SlotAddress(base, shift, i) {
        assert S.AtSlot(objs, base, shift, State(), i);
        if i < 64 * |occ| {
          S.InWordsIff(B.Sets(occ), i);
          B.InBits(occ[i / 64], i % 64);
        }
      }
    }

    method Recount() returns (n: nat)
      requires Valid()
      ensures n == |Occupied()|
    {
      n := 0;
      for w := 0 to |occ|
        invariant n == |S.BitsUpTo(B.Sets(occ), w)|
      {
        S.WordCounts(B.Sets(occ), w);
        var ones := B.CountOnes(occ[w]);
        n := n + ones;
      }
      assert S.BitsUpTo(B.Sets(occ), |occ|) == Occupied();
    }
  }

  /** The smallest shift for a slot size. */
  method ShiftFor(slotSize: nat) returns (k: nat)
    ensures S.Pow2(k) >= slotSize && (k > 0 ==> S.Pow2(k - 1) < slotSize)
  {
    k := 0;
    var p := 1;
    while p < slotSize
      invariant p == S.Pow2(k) && (k > 0 ==> S.Pow2(k - 1) < slotSize)
      decreases slotSize - p
    {
      k, p := k + 1, p * 2;
    }
  }

  /** `slot_size_of`: the next power of two, at least 16. */
  method SlotSizeOf(n: nat) returns (size: nat)
    ensures size >= n && size >= 16 && (size == 16 || size < 2 * n) && exists k :: size == S.Pow2(k)
  {
    size := 16;
    ghost var k := 4;
    assert size == S.Pow2(k);
    while size < n
      invariant size >= 16 && (size == 16 || size < 2 * n) && size == S.Pow2(k)
      decreases n - size
    {
      size, k := size * 2, k + 1;
    }
  }

  /** Slab `s` is listed under its region and at its address. */
  ghost predicate Listed(regions: seq<seq<Slab>>, at: map<int, Slab>, s: Slab) {
    s.base in at && at[s.base] == s && s.rid < |regions| && s in regions[s.rid]
  }

  /** Every slab is in the list of its own region, once. */
  ghost predicate ListsOk(regions: seq<seq<Slab>>, at: map<int, Slab>) {
    && (forall b | b in at :: at[b].base == b && Listed(regions, at, at[b]))
    && (forall r, j | 0 <= r < |regions| && 0 <= j < |regions[r]| ::
          regions[r][j].rid == r && Listed(regions, at, regions[r][j]))
    && (forall r, i, j | 0 <= r < |regions| && 0 <= i < j < |regions[r]| :: regions[r][i] != regions[r][j])
  }

  lemma {:induction false} ListsPlus(regions: seq<seq<Slab>>, at: map<int, Slab>, s: Slab)
    requires ListsOk(regions, at) && s.base !in at && s.rid < |regions|
    ensures ListsOk(regions[s.rid := [s] + regions[s.rid]], at[s.base := s])
  {
    var regions', at' := regions[s.rid := [s] + regions[s.rid]], at[s.base := s];
    assert regions'[s.rid][0] == s && regions'[s.rid][1..] == regions[s.rid];
    forall b | b in at' ensures at'[b].base == b && Listed(regions', at', at'[b]) {
      if b != s.base {
        assert Listed(regions, at, at[b]);
      }
    }
    forall r, j | 0 <= r < |regions'| && 0 <= j < |regions'[r]|
      ensures regions'[r][j].rid == r && Listed(regions', at', regions'[r][j])
    {
      if r == s.rid && j > 0 {
        assert regions'[r][j] == regions[r][j - 1];
      }
    }
    forall r, i, j | 0 <= r < |regions'| && 0 <= i < j < |regions'[r]| ensures regions'[r][i] != regions'[r][j] {
      if r == s.rid {
        assert regions'[r][j] == regions[r][j - 1] && Listed(regions, at, regions[r][j - 1]);
        assert i > 0 ==> regions'[r][i] == regions[r][i - 1];
      }
    }
  }

  /** The byte counts after a slot of the slab has been freed. */
  function Lighter(bytes: seq<int>, s: Slab): seq<int> {
    if s.rid < |bytes| then bytes[s.rid := bytes[s.rid] - S.Pow2(s.shift)] else bytes
  }

  /** The address of a slot of a slab. */
  ghost predicate IsSlot(at: map<int, Slab>, p: int) {
    var b := S.SlabOf(p);
    b in at && 0 <= S.SlotOf(b, at[b].shift, p) < at[b].nslots
    && p == S.SlotAddress(b, at[b].shift, S.SlotOf(b, at[b].shift, p))
  }

  /** These slabs are different ones of the heap. */
  ghost predicate AreSlabs(at: map<int, Slab>, list: seq<Slab>) {
    && (forall j {:trigger list[j]} | 0 <= j < |list| :: list[j].base in at && at[list[j].base] == list[j])
    && (forall i, j | 0 <= i < j < |list| :: list[i] != list[j])
  }

  /** All slabs of all regions, and the program's counted references. */
  class Heap {
    var regions: seq<seq<Slab>>
    var bytes: seq<int>
    var at: map<int, Slab>
    var refs: map<H.Loc, int>
    const rcFree: bool
    ghost var objs: map<int, int>

    ghost function Slabs(): set<Slab>
      reads this`at
    {
      set b | b in at :: at[b]
    }

    /** The objects of slab `s` are its occupied slots, with their holder counts. */
    ghost predicate Good(s: Slab)
      reads this`objs, s
    {
      s.Valid() && S.ObjsMatch(objs, s.base, s.shift, s.State())
    }

    /** `slab_of`. */
    function SlabAt(p: int): Slab
      requires S.SlabOf(p) in at
      reads this`at
    {
      at[S.SlabOf(p)]
    }

    ghost predicate Valid()
      reads this`bytes, this`regions, this`at, this`objs, Slabs()
    {
      && |bytes| == |regions| && ListsOk(regions, at)
      && (forall b {:trigger Good(at[b])} | b in at :: Good(at[b]))
      && (forall p {:trigger IsSlot(at, p)} | p in objs :: IsSlot(at, p))
    }

    ghost function Counts(): H.Counts
      reads this`objs, this`refs
    {
      H.Counts(objs, refs)
    }

    constructor (count: nat, rcFree: bool)
      ensures Valid() && H.Sound(Counts()) && |regions| == count && at == map[] && objs == map[] && refs == map[]
      ensures E.Exact(Counts()) && this.rcFree == rcFree
    {
      this.rcFree := rcFree;
      regions, bytes, at, refs := seq(count, _ => []), seq(count, _ => 0), map[], map[];
      objs := map[];
    }

    /** The byte count of a region, adjusted. */
    method AddBytes(r: int, n: int)
      requires Valid() && 0 <= r < |bytes|
      modifies this`bytes
      ensures Valid() && bytes == old(bytes)[r := old(bytes)[r] + n]
    {
      bytes := bytes[r := bytes[r] + n];
    }

    /** A free slot of slab `s` becomes an object without holders. */
    method TakeFrom(s: Slab) returns (p: int)
      requires Valid() && s in Slabs() && s.freelist >= 0
      modifies this`objs, s`freelist, s`occ, s`used, s`chain
      ensures Valid() && p !in old(objs) && p >= 0 && objs == old(objs)[p := 0] && S.SlabOf(p) == s.base
    {
      assert Listed(regions, at, s) && Good(s);
      S.ObjTaken(objs, s.base, s.shift, s.State());
      var i := s.Take();
      p := S.SlotAddress(s.base, s.shift, i);
      S.SlotFound(s.base, s.shift, i);
      assert IsSlot(at, p);
      objs := objs[p := 0];
      forall b | b in at ensures Good(at[b]) {
        var t := at[b];
        assert old(Good(t));
        if t != s {
          S.OtherSlabMatches(old(objs), objs, t.base, t.shift, t.State(), s.base, s.shift, i);
        }
      }
      forall q | q in objs ensures IsSlot(at, q) {
        assert q != p ==> IsSlot(old(at), q);
      }
    }

    /** A slab nobody has used yet joins the front of its region's list. */
    method Register(s: Slab)
      requires Valid() && s.Valid() && s.Occupied() == {} && s.base !in at && s.rid < |regions|
      modifies this`regions, this`at
      ensures Valid() && |regions| == |old(regions)|
      ensures at == old(at)[s.base := s] && regions == old(regions)[s.rid := [s] + old(regions)[s.rid]]
    {
      ListsPlus(regions, at, s);
      regions := regions[s.rid := [s] + regions[s.rid]];
      at := at[s.base := s];
      forall j | 0 <= j < s.nslots ensures S.SlotAddress(s.base, s.shift, j) !in objs {
        S.SlotFound(s.base, s.shift, j);
        var p := S.SlotAddress(s.base, s.shift, j);
        assert p in objs ==> IsSlot(old(at), p);
      }
      S.FreshMatches(objs, s.base, s.shift, s.State());
      forall b | b in at ensures Good(at[b]) {
        assert at[b] != s ==> old(Good(at[b]));
      }
      forall q | q in objs ensures IsSlot(at, q) {
        assert IsSlot(old(at), q);
      }
    }

    /** A new slab for region `r`. */
    method AddSlab(r: int, base: nat, size: nat) returns (s: Slab)
      requires Valid() && 0 <= r < |regions| && base % S.SLAB_SIZE == 0 && base !in at
      modifies this`regions, this`at
      ensures Valid() && fresh(s) && s.rid == r && s.State() == S.Fresh(s.nslots) && s.nslots == S.SlotsOf(s.shift)
      ensures at == old(at)[base := s] && regions == old(regions)[r := [s] + old(regions)[r]]
      ensures S.Pow2(s.shift) >= size && (s.shift > 0 ==> S.Pow2(s.shift - 1) < size)
    {
      s := new Slab(base, r, size);
      Register(s);
    }

    /** `r2_free_slot`: the object's slot goes to the front of its slab's free list. */
    method FreeObject(p: int)
      requires Valid() && p in objs && IsSlot(at, p)
      modifies this`bytes, this`objs, SlabAt(p)`heads, SlabAt(p)`freelist, SlabAt(p)`occ, SlabAt(p)`rsbit,
               SlabAt(p)`hold, SlabAt(p)`used, SlabAt(p)`chain
      ensures Valid() && objs == old(objs) - {p}
      ensures bytes == Lighter(old(bytes), SlabAt(p))
    {
      var s := SlabAt(p);
      assert Listed(regions, at, s);
      AddBytes(s.rid, 0 - S.Pow2(s.shift));
      FreeSlotOf(s, S.SlotOf(s.base, s.shift, p));
    }

    /** The object in slot `i` of slab `s` goes. */
    method FreeSlotOf(s: Slab, i: int)
      requires Valid() && s in Slabs() && 0 <= i < s.nslots && S.SlotAddress(s.base, s.shift, i) in objs
      modifies this`objs, s`heads, s`freelist, s`occ, s`rsbit, s`hold, s`used, s`chain
      ensures Valid() && objs == old(objs) - {S.SlotAddress(s.base, s.shift, i)}
    {
      assert Listed(regions, at, s) && Good(s);
      assert S.AtSlot(objs, s.base, s.shift, s.State(), i);
      S.ObjFreed(objs, s.base, s.shift, s.State(), i);
      s.Free(i);
      objs := objs - {S.SlotAddress(s.base, s.shift, i)};
      forall b | b in at ensures Good(at[b]) {
        var t := at[b];
        assert old(Good(t));
        if t != s {
          S.OtherSlabMatches(old(objs), objs, t.base, t.shift, t.State(), s.base, s.shift, i);
        }
      }
      forall q | q in objs ensures IsSlot(at, q) {
        assert IsSlot(old(at), q);
      }
    }

    /** The holder count of an object is overwritten. */
    method SetHold(p: int, n: int)
      requires Valid() && p in objs && IsSlot(at, p) && 0 <= n <= H.HOLD_SAT
      modifies this`objs, SlabAt(p)`hold
      ensures Valid() && objs == old(objs)[p := n]
    {
      var s := SlabAt(p);
      assert Listed(regions, at, s) && Good(s);
      var i := S.SlotOf(s.base, s.shift, p);
      assert S.AtSlot(objs, s.base, s.shift, s.State(), i);
      S.InWordsIff(B.Sets(s.occ), i);
      S.SameButHold(s.State(), s.State().(hold := s.hold[i := n]), i, n);
      S.ObjHeld(objs, s.base, s.shift, s.State(), i, n);
      s.hold := s.hold[i := n];
      objs := objs[p := n];
      forall b | b in at ensures Good(at[b]) {
        var t := at[b];
        assert old(Good(t));
        if t != s {
          S.OtherSlabMatches(old(objs), objs, t.base, t.shift, t.State(), s.base, s.shift, i);
        }
      }
      forall q | q in objs ensures IsSlot(at, q) {
        assert IsSlot(old(at), q);
      }
    }

    // ---------------------------------------------------------------- allocation

    /** A free slot that is large enough. */
    predicate Fits(s: Slab, n: nat)
      reads s
    {
      s.freelist >= 0 && S.Pow2(s.shift) >= n
    }

    /** The first slab of the region with a free slot that is large enough. */
    method FindSlab(r: int, n: nat) returns (j: nat)
      requires Valid() && 0 <= r < |regions|
      ensures j <= |regions[r]|
      ensures j < |regions[r]| ==> Fits(regions[r][j], n)
      ensures forall i | 0 <= i < j :: !Fits(regions[r][i], n)
    {
      j := 0;
      while j < |regions[r]| && (regions[r][j].freelist < 0 || S.Pow2(regions[r][j].shift) < n)
        invariant j <= |regions[r]|
        invariant forall i | 0 <= i < j :: !Fits(regions[r][i], n)
      {
        j := j + 1;
      }
    }

    /** The slab a request is served from: one of the region's with room, or a new one. */
    method SlabFor(r: int, n: nat, base: nat) returns (s: Slab, ghost j: nat)
      requires Valid() && 0 <= r < |regions| && base % S.SLAB_SIZE == 0 && base !in at
      modifies this`regions, this`at
      ensures Valid() && Listed(regions, at, s) && s.rid == r && S.Pow2(s.shift) >= n && |regions| == |old(regions)|
      ensures j <= |old(regions)[r]| && forall i | 0 <= i < j :: !old(Fits(regions[r][i], n))
      ensures if j < |old(regions)[r]|
              then s == old(regions)[r][j] && s in old(Slabs()) && at == old(at) && regions == old(regions)
              else fresh(s) && at == old(at)[base := s] && regions == old(regions)[r := [s] + old(regions)[r]]
                   && S.Pow2(s.shift) >= 16 && (S.Pow2(s.shift) == 16 || S.Pow2(s.shift) < 2 * n)
      ensures s.freelist >= 0 <==> n <= 0x8_0000
    {
      var first := FindSlab(r, n);
      j := first;
      if first < |regions[r]| {
        s := regions[r][first];
        assert Listed(regions, at, s) && Good(s);
        RoomMeansSmall(s, n);
      } else {
        var size := SlotSizeOf(n);
        s := AddSlab(r, base, size);
        assert at[base] == s && Listed(regions, at, s);
        NewSlabHasRoomIff(s, n, size);
        NewSlabIsTight(s, n, size);
      }
    }

    /**
     `r2_alloc`: a slot of at least `n` bytes that was not in use and has no holders, from a slab of
     the region, an existing one or a new one at `base`.  It goes out of bounds exactly for requests
     of more than half a slab.
     */
    method Alloc(r: int, n: nat, base: nat) returns (res: AllocResult, ghost j: nat)
      requires Valid() && 0 <= r < |regions| && base % S.SLAB_SIZE == 0 && base !in at
      modifies this, Slabs()
      ensures res.OutOfBounds? <==> n > 0x8_0000
      ensures res.Allocated? ==>
                && Valid() && res.p >= 0 && res.p !in old(objs) && objs == old(objs)[res.p := 0] && refs == old(refs)
                && S.SlabOf(res.p) in at && SlabAt(res.p).rid == r && S.Pow2(SlabAt(res.p).shift) >= n
                && bytes == old(bytes)[r := old(bytes)[r] + n]
      ensures res.Allocated? && old(H.Sound(Counts())) ==> H.Sound(Counts())
      ensures res.Allocated? && old(E.Exact(Counts())) ==> E.Exact(Counts())
      ensures j <= |old(regions)[r]| && forall i | 0 <= i < j :: !old(Fits(regions[r][i], n))
      ensures res.Allocated? && j < |old(regions)[r]| ==>
                at == old(at) && regions == old(regions) && SlabAt(res.p) == old(regions)[r][j]
      ensures res.Allocated? && j == |old(regions)[r]| ==>
                && base in at && SlabAt(res.p) == at[base] && regions == old(regions)[r := [at[base]] + old(regions)[r]]
                && (S.Pow2(at[base].shift) == 16 || S.Pow2(at[base].shift) < 2 * n)
    {
      var s;
      s, j := SlabFor(r, n, base);
      if s.freelist < 0 {
        return OutOfBounds, j;
      }
      ghost var before := Counts();
      var p := TakeFrom(s);
      if H.Sound(before) {
        H.NewObjectSound(before, p);
      }
      if E.Exact(before) {
        E.MakeExact(before, p);
      }
      AddBytes(r, n);
      res := Allocated(p);
    }

    // ---------------------------------------------------------------- counted references

    /**
     `upd_hold`: a count goes up or down by one, but 65535 stays and zero is not lowered; the object is
     freed exactly when its count goes from one to zero.
     */
    method UpdHold(p: int, up: bool) returns (freed: bool)
      requires Valid() && p in objs && IsSlot(at, p) && 0 <= objs[p] <= H.HOLD_SAT
      modifies this`bytes, this`objs, SlabAt(p)`heads, SlabAt(p)`freelist, SlabAt(p)`occ, SlabAt(p)`rsbit,
               SlabAt(p)`hold, SlabAt(p)`used, SlabAt(p)`chain
      ensures Valid()
      ensures freed <==> !up && rcFree && old(objs[p]) == 1
      ensures !freed ==>
                && bytes == old(bytes)
                && var n := old(objs[p]);
                   objs == old(objs)[p := if n == 65535 then n else if up then n + 1 else if n == 0 then 0 else n - 1]
      ensures freed ==> objs == old(objs) - {p} && bytes == Lighter(old(bytes), SlabAt(p))
    {
      var s := SlabAt(p);
      var i := S.SlotOf(s.base, s.shift, p);
      assert Good(s) && S.AtSlot(objs, s.base, s.shift, s.State(), i);
      var n := s.hold[i];
      freed := false;
      if up {
        if n != H.HOLD_SAT {
          SetHold(p, n + 1);
        }
      } else if n != 0 && n != H.HOLD_SAT {
        SetHold(p, n - 1);
        if n - 1 == 0 && rcFree {
          FreeObject(p);
          freed := true;
        }
      }
      assert old(objs)[p := old(objs)[p]] == old(objs);
    }

    /**
     `init_ref`: a new reference is written and its target's count raised without a look at saturation.
     Sound counts stay sound exactly if the target's count has not stuck.
     */
    method InitRef(l: H.Loc, v: int)
      requires Valid() && l !in refs && (v >= 0 ==> v in objs && IsSlot(at, v) && 0 <= objs[v] <= H.HOLD_SAT)
      modifies this`refs, this`objs, Slabs()`hold
      ensures Valid() && Counts() == H.InitRef(old(Counts()), l, v)
      ensures old(H.Sound(Counts())) && (l.Field? ==> l.p in old(objs)) ==>
                (H.Sound(Counts()) <==> v < 0 || old(objs)[v] != H.HOLD_SAT)
      ensures old(E.Exact(Counts())) && (l.Field? ==> l.p in old(objs)) ==>
                (E.Exact(Counts()) <==> v < 0 || old(objs)[v] != H.HOLD_SAT)
    {
      ghost var before := Counts();
      WriteRef(l, v);
      if l.Field? ==> l.p in before.objs {
        if H.Sound(before) {
          H.InitRefSoundIff(before, l, v);
        }
        if E.Exact(before) {
          E.InitExactIff(before, l, v);
        }
      }
    }

    method WriteRef(l: H.Loc, v: int)
      requires Valid() && (v >= 0 ==> v in objs && IsSlot(at, v) && 0 <= objs[v] <= H.HOLD_SAT)
      modifies this`refs, this`objs, Slabs()`hold
      ensures Valid() && Counts() == H.InitRef(old(Counts()), l, v)
    {
      refs := refs[l := v];
      if v >= 0 {
        var s := SlabAt(v);
        var i := S.SlotOf(s.base, s.shift, v);
        assert Good(s) && S.AtSlot(objs, s.base, s.shift, s.State(), i);
        SetHold(v, (s.hold[i] + 1) % 65536);
      }
    }

    /** The second half of `store_hold`: the old value loses a holder. */
    method DropHolder(was: int)
      requires Valid() && (was >= 0 ==> was in objs && IsSlot(at, was) && 0 <= objs[was] <= H.HOLD_SAT)
      modifies this`refs, this`objs, this`bytes, Slabs()`heads, Slabs()`freelist, Slabs()`occ, Slabs()`rsbit,
               Slabs()`hold, Slabs()`used, Slabs()`chain
      ensures Valid() && Counts() == H.Drop(old(Counts()), was, rcFree)
      ensures bytes == if H.Dies(old(objs), was) && rcFree then Lighter(old(bytes), SlabAt(was)) else old(bytes)
    {
      if was >= 0 {
        var freed := UpdHold(was, false);
        if freed {
          // the freed object's own reference is no location any more
          refs := refs - {H.Field(was)};
        }
      }
    }

    /** The first half: the new value gains one. */
    method AddHolder(v: int)
      requires Valid() && (v >= 0 ==> v in objs && IsSlot(at, v) && 0 <= objs[v] <= H.HOLD_SAT)
      modifies this`objs, this`bytes, Slabs()`heads, Slabs()`freelist, Slabs()`occ, Slabs()`rsbit, Slabs()`hold,
               Slabs()`used, Slabs()`chain
      ensures Valid() && objs == (if v >= 0 then old(objs)[v := H.Raised(old(objs)[v])] else old(objs))
      ensures bytes == old(bytes)
    {
      if v >= 0 {
        var f := UpdHold(v, true);
      }
    }

    /**
     `store_hold`: a reference is overwritten; the new target gains a holder before the old one loses
     it.  Counts that are sound stay sound, and an object that is freed has no holder left.  From exact
     counts the old target is freed exactly if objects are freed at all, its count has not stuck and no
     reference to it is left.
     */
    method StoreHold(l: H.Loc, v: int)
      requires Valid() && H.Sound(Counts()) && l in refs && (v >= 0 ==> v in objs)
      modifies this`refs, this`objs, this`bytes, Slabs()`heads, Slabs()`freelist, Slabs()`occ, Slabs()`rsbit,
               Slabs()`hold, Slabs()`used, Slabs()`chain
      ensures Valid() && H.Sound(Counts()) && Counts() == H.StoreHold(old(Counts()), l, v, rcFree)
      ensures forall p | p in old(objs) && p !in objs ::
                && p == old(refs)[l] && H.HoldersOf(old(refs)[l := v], p) == {}
                && S.SlabOf(p) in at && bytes == Lighter(old(bytes), SlabAt(p))
      ensures old(objs).Keys == objs.Keys ==> bytes == old(bytes)
      ensures old(E.Exact(Counts())) ==>
                && (forall p | p in old(objs) ::
                      p !in objs <==> rcFree && p == old(refs)[l] && old(objs)[p] != H.HOLD_SAT
                                      && H.HoldersOf(old(refs)[l := v], p) == {})
                && (E.Exact(Counts()) <==> !E.Leaks(old(refs)[l := v], old(objs), objs))
    {
      ExactStore(l, v);
      H.StoreHoldSound(Counts(), l, v, rcFree);
      assert v >= 0 ==> IsSlot(at, v);
      assert refs[l] >= 0 ==> IsSlot(at, refs[l]);
      var was := refs[l];
      refs := refs[l := v];
      AddHolder(v);
      DropHolder(was);
    }

    /** What a store does to exact counts. */
    lemma {:induction false} ExactStore(l: H.Loc, v: int)
      requires H.Sound(Counts()) && l in refs && (v >= 0 ==> v in objs)
      ensures var w := H.StoreHold(Counts(), l, v, rcFree);
              E.Exact(Counts()) ==>
                && (forall p | p in objs ::
                      p !in w.objs <==> rcFree && p == refs[l] && objs[p] != H.HOLD_SAT
                                        && H.HoldersOf(refs[l := v], p) == {})
                && (E.Exact(w) <==> !E.Leaks(refs[l := v], objs, w.objs))
    {
      if E.Exact(Counts()) {
        forall p | p in objs
          ensures p !in H.StoreHold(Counts(), l, v, rcFree).objs <==>
                  rcFree && p == refs[l] && objs[p] != H.HOLD_SAT && H.HoldersOf(refs[l := v], p) == {}
        {
          E.StoreFreesIff(Counts(), l, v, rcFree, p);
        }
        E.StoreExactIff(Counts(), l, v, rcFree);
      }
    }

    // ---------------------------------------------------------------- sweeping a region

    /** The states of a list of slabs. */
    ghost predicate Seen(list: seq<Slab>, views: seq<S.Slab>)
      reads list
    {
      |views| == |list| && forall j {:trigger views[j]} | 0 <= j < |list| :: list[j].State() == views[j]
    }

    function Shifts(list: seq<Slab>): (v: seq<nat>)
      ensures |v| == |list| && forall j | 0 <= j < |list| :: v[j] == list[j].shift
    {
      seq(|list|, j requires 0 <= j < |list| => list[j].shift)
    }

    /** One slab of a region is swept, and its objects that were not marked are gone. */
    method SweepSlab(s: Slab) returns (freed: nat)
      requires Valid() && s in Slabs()
      modifies this`objs, s
      ensures Valid() && s.Occupied() == old(s.Occupied()) * old(s.Marks()) && s.Marks() == {}
      ensures freed == |old(s.Occupied()) - old(s.Marks())| && S.KeptSlots(old(s.State()), s.State())
      ensures objs == StillOccupied(old(objs), s.base, s.shift, old(s.Marks()))
    {
      assert Listed(regions, at, s) && Good(s);
      freed := s.Sweep();
      objs := StillOccupied(objs, s.base, s.shift, s.Occupied());
      forall b | b in at && at[b] != s ensures Good(at[b]) {
        var t := at[b];
        assert old(Good(t));
        OtherSlabSwept(old(objs), objs, t.base, t.shift, t.State(), s.base);
      }
      SlabSwept(old(objs), objs, s.base, s.shift, old(s.State()), s.State());
      MarkedStay(old(objs), s.base, s.shift, old(s.State()), at);
      forall q | q in objs ensures IsSlot(at, q) {
        assert IsSlot(old(at), q);
      }
    }

    /** The first slabs have been swept to `after`, the others are as before. */
    ghost predicate SweptUpTo(list: seq<Slab>, before: seq<S.Slab>, after: seq<S.Slab>)
      reads list
    {
      && |after| <= |before| == |list| && S.SweptEach(before[..|after|], after)
      && (forall i {:trigger after[i]} | 0 <= i < |after| :: list[i].State() == after[i])
      && (forall i {:trigger before[i]} | |after| <= i < |list| :: list[i].State() == before[i])
    }

    /** The same with the slots freed so far counted and the objects in them gone. */
    ghost predicate SweptSoFar(list: seq<Slab>, before: seq<S.Slab>, after: seq<S.Slab>, freed: int,
                               objs0: map<int, int>)
      reads this`objs, list
    {
      && SweptUpTo(list, before, after) && freed == S.DeadSlots(before[..|after|])
      && objs == Survivors(objs0, list, before, |after|)
    }

    /** One slab of a list is swept, the others stay as they are. */
    method SweepIn(list: seq<Slab>, j: nat) returns (n: nat, ghost w: S.Slab)
      requires Valid() && AreSlabs(at, list) && j < |list|
      modifies this`objs, list[j]
      ensures Valid() && list[j].State() == w && S.Swept(old(list[j].State()), w)
      ensures forall i {:trigger list[i]} | 0 <= i < |list| && i != j :: list[i].State() == old(list[i].State())
      ensures n == |S.Bits(old(list[j].State()).occ) - S.Bits(old(list[j].State()).mark)|
      ensures objs == StillOccupied(old(objs), list[j].base, list[j].shift, S.Bits(old(list[j].State()).mark))
    {
      assert at[list[j].base] == list[j];
      n := SweepSlab(list[j]);
      w := list[j].State();
      forall i | 0 <= i < |list| && i != j ensures list[i].State() == old(list[i].State()) {
        assert list[i] != list[j];
      }
    }

    method SweepNext(list: seq<Slab>, ghost before: seq<S.Slab>, ghost after: seq<S.Slab>, j: nat, n0: nat,
                     ghost objs0: map<int, int>)
      returns (n: nat, ghost after': seq<S.Slab>)
      requires Valid() && AreSlabs(at, list) && j == |after| < |list| && SweptSoFar(list, before, after, n0, objs0)
      modifies this`objs, list[j]
      ensures Valid() && |after'| == j + 1 && SweptSoFar(list, before, after', n, objs0)
    {
      S.DeadSlotsPlus(before, j);
      assert list[j].State() == before[j];
      ghost var w;
      n, w := SweepIn(list, j);
      n := n0 + n;
      after' := after + [w];
      S.SweptPlus(before, after, w);
    }

    /** The slabs of a region's list, one after the other. */
    method SweepSlabs(list: seq<Slab>, ghost before: seq<S.Slab>) returns (freed: nat, ghost after: seq<S.Slab>)
      requires Valid() && AreSlabs(at, list) && Seen(list, before)
      modifies this`objs, list
      ensures Valid() && Seen(list, after) && freed == S.DeadSlots(before) && S.SweptEach(before, after)
      ensures objs == Survivors(old(objs), list, before, |list|)
    {
      freed, after := 0, [];
      ghost var objs0 := objs;
      for j := 0 to |list|
        invariant Valid() && |after| == j && SweptSoFar(list, before, after, freed, objs0)
      {
        freed, after := SweepNext(list, before, after, j, freed, objs0);
      }
      assert before[..|list|] == before;
    }

    /** The recount: the payload of the occupied slots. */
    method CountPayload(list: seq<Slab>, ghost views: seq<S.Slab>, ghost shifts: seq<nat>) returns (total: int)
      requires Valid() && AreSlabs(at, list) && Seen(list, views) && shifts == Shifts(list)
      ensures total == S.Payload(views, shifts)
    {
      total := 0;
      for j := 0 to |list|
        invariant total == S.Payload(views[..j], shifts[..j])
      {
        assert at[list[j].base] == list[j] && Good(list[j]) && list[j].State() == views[j];
        S.PayloadPlus(views, shifts, j);
        var n := list[j].Recount();
        total := total + S.SlotBytes(n, list[j].shift);
      }
      assert views[..|list|] == views && shifts[..|list|] == shifts;
    }

    /** The region's byte count is overwritten; no slab is touched. */
    method SetBytes(r: int, total: int, ghost list: seq<Slab>, ghost views: seq<S.Slab>)
      requires Valid() && 0 <= r < |regions| && Seen(list, views)
      modifies this`bytes
      ensures Valid() && bytes == old(bytes)[r := total] && Seen(list, views)
    {
      bytes := bytes[r := total];
      forall j | 0 <= j < |list| ensures list[j].State() == views[j] {
        var s: object := list[j];
        assert s != this;
      }
    }

    /**
     `r2_sweep`: in every slab of the region what was occupied and not marked is freed and the marks are
     cleared, and the byte count is then exactly the payload of the occupied slots.  Sound counts stay
     sound exactly if no root and no object that stays refers to an object that is freed.
     */
    method SweepRegion(r: int, ghost before: seq<S.Slab>)
      returns (freed: nat, ghost after: seq<S.Slab>, ghost f: set<int>)
      requires Valid() && 0 <= r < |regions| && Seen(regions[r], before)
      modifies this`bytes, this`objs, this`refs, regions[r]
      ensures Valid() && Seen(regions[r], after) && freed == S.DeadSlots(before) && S.SweptEach(before, after)
      ensures bytes == old(bytes)[r := S.Payload(after, Shifts(regions[r]))]
      ensures AreUnmarked(old(objs), regions[r], before, f) && Counts() == H.Swept(old(Counts()), f)
      ensures old(H.Sound(Counts())) ==> (H.Sound(Counts()) <==> !H.CutsOff(old(Counts()), f))
      ensures old(E.Exact(Counts())) ==>
                (E.Exact(Counts()) <==> !H.CutsOff(old(Counts()), f) && !E.Leaks(old(refs), old(objs), objs))
    {
      ghost var counts := Counts();
      freed, after, f := SweepObjects(r, before);
      Recompute(r, after);
      if H.Sound(counts) {
        H.SweepSoundIff(counts, f);
      }
      if E.Exact(counts) {
        E.SweepExactIff(counts, f);
      }
    }

    /** The sweep without the recount. */
    method SweepObjects(r: int, ghost before: seq<S.Slab>)
      returns (freed: nat, ghost after: seq<S.Slab>, ghost f: set<int>)
      requires Valid() && 0 <= r < |regions| && Seen(regions[r], before)
      modifies this`objs, this`refs, regions[r]
      ensures Valid() && Seen(regions[r], after) && freed == S.DeadSlots(before) && S.SweptEach(before, after)
      ensures AreUnmarked(old(objs), regions[r], before, f) && Counts() == H.Swept(old(Counts()), f)
      ensures f <= old(objs).Keys
    {
      ghost var objs0 := objs;
      RegionSlabs(regions, at, r);
      freed, after := SweepSlabs(regions[r], before);
      f := objs0.Keys - objs.Keys;
      SurvivorsAre(objs0, regions[r], before, f);
      ForgetFields(f, objs0);
    }

    /** Is `p` an occupied slot. */
    predicate IsObject(p: int)
      reads this`at, Slabs()
    {
      S.SlabOf(p) in at && at[S.SlabOf(p)].Holds(p)
    }

    lemma {:induction false} IsObjectIff(p: int)
      requires Valid()
      ensures IsObject(p) <==> p in objs
    {
      if S.SlabOf(p) in at {
        assert Good(SlabAt(p)) && Listed(regions, at, SlabAt(p));
        SlabAt(p).HoldsIff(p, objs);
      }
      assert p in objs ==> IsSlot(at, p);
    }

    /** The references in objects that are gone are no references any more. */
    method ForgetFields(ghost f: set<int>, ghost objs0: map<int, int>)
      requires Valid() && f <= objs0.Keys && objs == objs0 - f
      modifies this`refs
      ensures Valid() && Counts() == H.Swept(H.Counts(objs0, old(refs)), f)
    {
      forall l | l in refs && l.Field? ensures IsObject(l.p) <==> l.p in objs {
        IsObjectIff(l.p);
      }
      refs := map l | l in refs && (l.Field? ==> IsObject(l.p)) :: refs[l];
    }

    /** The byte count of a region is computed anew. */
    method Recompute(r: int, ghost views: seq<S.Slab>)
      requires Valid() && 0 <= r < |regions| && Seen(regions[r], views)
      modifies this`bytes
      ensures Valid() && Seen(regions[r], views)
      ensures bytes == old(bytes)[r := S.Payload(views, Shifts(regions[r]))]
    {
      RegionSlabs(regions, at, r);
      var total := CountPayload(regions[r], views, Shifts(regions[r]));
      SetBytes(r, total, regions[r], views);
    }
  }

  /** The objects left when those of the slab at `base` whose slots are not in `occ` are gone. */
  ghost function StillOccupied(objs: map<int, int>, base: int, shift: nat, occ: set<int>): map<int, int> {
    map p | p in objs && (S.SlabOf(p) == base ==> S.SlotOf(base, shift, p) in occ) :: objs[p]
  }

  /** The objects left when the first `n` slabs of a list have been swept one after the other. */
  ghost function Survivors(objs: map<int, int>, list: seq<Slab>, views: seq<S.Slab>, n: nat): map<int, int>
    requires n <= |list| == |views|
  {
    if n == 0 then objs
    else
      StillOccupied(Survivors(objs, list, views, n - 1), list[n - 1].base, list[n - 1].shift, S.Bits(views[n - 1].mark))
  }

  /** Address `p` is in one of the first `n` of these slabs, in a slot that was not marked. */
  ghost predicate UnmarkedIn(list: seq<Slab>, views: seq<S.Slab>, n: nat, p: int)
    requires n <= |list| == |views|
  {
    exists j | 0 <= j < n :: UnmarkedAt(list[j], views[j], p)
  }

  ghost predicate UnmarkedAt(s: Slab, view: S.Slab, p: int) {
    S.SlabOf(p) == s.base && S.SlotOf(s.base, s.shift, p) !in S.Bits(view.mark)
  }

  /** `f` are the objects in the slabs of the list whose slots were not marked. */
  ghost predicate AreUnmarked(objs: map<int, int>, list: seq<Slab>, views: seq<S.Slab>, f: set<int>) {
    |views| == |list| && forall p :: p in f <==> p in objs && UnmarkedIn(list, views, |list|, p)
  }

  /** Exactly the objects that were not marked are gone, and the others keep their counts. */
  lemma {:induction false} SurvivorsAre(objs: map<int, int>, list: seq<Slab>, views: seq<S.Slab>, f: set<int>)
    requires |list| == |views| && f == objs.Keys - Survivors(objs, list, views, |list|).Keys
    ensures AreUnmarked(objs, list, views, f) && Survivors(objs, list, views, |list|) == objs - f
  {
    forall p ensures p in f <==> p in objs && UnmarkedIn(list, views, |list|, p) {
      SurvivesIff(objs, list, views, |list|, p);
    }
    forall p | p in objs && p !in f ensures Survivors(objs, list, views, |list|)[p] == objs[p] {
      SurvivesIff(objs, list, views, |list|, p);
    }
    assert forall p | p in Survivors(objs, list, views, |list|) :: p in objs by {
      forall p | p in Survivors(objs, list, views, |list|) ensures p in objs {
        SurvivesIff(objs, list, views, |list|, p);
      }
    }
  }

  lemma {:induction false} SurvivesIff(objs: map<int, int>, list: seq<Slab>, views: seq<S.Slab>, n: nat, p: int)
    requires n <= |list| == |views|
    ensures p in Survivors(objs, list, views, n) <==> p in objs && !UnmarkedIn(list, views, n, p)
    ensures p in Survivors(objs, list, views, n) ==> Survivors(objs, list, views, n)[p] == objs[p]
  {
    if n > 0 {
      SurvivesIff(objs, list, views, n - 1, p);
      assert UnmarkedIn(list, views, n, p) <==>
               UnmarkedIn(list, views, n - 1, p) || UnmarkedAt(list[n - 1], views[n - 1], p);
    }
  }

  /** The objects of a slab whose slots are marked are those whose slots stay occupied. */
  lemma {:induction false} MarkedStay(objs: map<int, int>, base: nat, shift: nat, s: S.Slab, at: map<int, Slab>)
    requires S.ObjsMatch(objs, base, shift, s) && base in at && at[base].shift == shift && at[base].nslots == s.nslots
    requires forall p | p in objs :: IsSlot(at, p)
    ensures StillOccupied(objs, base, shift, S.Bits(s.occ) * S.Bits(s.mark))
            == StillOccupied(objs, base, shift, S.Bits(s.mark))
  {
    forall p | p in objs && S.SlabOf(p) == base ensures S.SlotOf(base, shift, p) in S.Bits(s.occ) {
      assert IsSlot(at, p);
      assert S.AtSlot(objs, base, shift, s, S.SlotOf(base, shift, p));
    }
  }

  lemma {:induction false} OtherSlabSwept(objs: map<int, int>, objs': map<int, int>, base: nat, shift: nat, s: S.Slab,
          base': int)
    requires S.ObjsMatch(objs, base, shift, s) && S.Placed(base, shift, s) && base' != base
    requires forall p | S.SlabOf(p) != base' :: (p in objs' <==> p in objs) && (p in objs ==> objs'[p] == objs[p])
    ensures S.ObjsMatch(objs', base, shift, s)
  {
    forall i | 0 <= i < s.nslots ensures S.AtSlot(objs', base, shift, s, i) {
      assert S.AtSlot(objs, base, shift, s, i);
      S.SlotFound(base, shift, i);
    }
  }

  lemma {:induction false} SlabSwept(objs: map<int, int>, objs': map<int, int>, base: nat, shift: nat, s: S.Slab,
          w: S.Slab)
    requires S.ObjsMatch(objs, base, shift, s) && S.Placed(base, shift, s) && S.Placed(base, shift, w)
    requires S.KeptSlots(s, w) && objs' == StillOccupied(objs, base, shift, S.Bits(w.occ))
    ensures S.ObjsMatch(objs', base, shift, w)
  {
    forall i | 0 <= i < w.nslots ensures S.AtSlot(objs', base, shift, w, i) {
      assert S.AtSlot(objs, base, shift, s, i);
      S.SlotFound(base, shift, i);
      if i in S.Bits(w.occ) {
        assert S.SameSlots(s, w, i);
      }
    }
  }

  lemma {:induction false} RegionSlabs(regions: seq<seq<Slab>>, at: map<int, Slab>, r: int)
    requires ListsOk(regions, at) && 0 <= r < |regions|
    ensures AreSlabs(at, regions[r])
  {
    forall j | 0 <= j < |regions[r]| ensures regions[r][j].base in at && at[regions[r][j].base] == regions[r][j] {
      assert Listed(regions, at, regions[r][j]);
    }
  }

  lemma {:induction false} NewSlabHasRoomIff(s: Slab, n: nat, size: nat)
    requires s.State() == S.Fresh(s.nslots) && s.nslots == S.SlotsOf(s.shift)
    requires S.Pow2(s.shift) >= size && (s.shift > 0 ==> S.Pow2(s.shift - 1) < size)
    requires size >= n && size >= 16 && (size == 16 || size < 2 * n) && exists k :: size == S.Pow2(k)
    ensures s.freelist >= 0 <==> n <= 0x8_0000
  {
    var k :| size == S.Pow2(k);
    S.ExactShift(s.shift, k);
    S.HasSlotsIff(s.shift);
    S.SizeWithin(n, size, k);
  }

  /** The slots of a new slab have exactly the size asked for. */
  lemma {:induction false} NewSlabIsTight(s: Slab, n: nat, size: nat)
    requires S.Pow2(s.shift) >= size && (s.shift > 0 ==> S.Pow2(s.shift - 1) < size)
    requires size >= 16 && (size == 16 || size < 2 * n) && exists k :: size == S.Pow2(k)
    ensures S.Pow2(s.shift) == size
  {
    var k :| size == S.Pow2(k);
    S.ExactShift(s.shift, k);
  }

  /** A slab with a free slot has slots of at most half its size. */
  lemma {:induction false} RoomMeansSmall(s: Slab, n: nat)
    requires s.Valid() && s.freelist >= 0 && S.Pow2(s.shift) >= n
    ensures n <= 0x8_0000
  {
    S.TakenKeepsInv(s.State());
    S.HasSlotsIff(s.shift);
  }
}
