/**
 A slab of equal slots: occupancy, mark and in-edge bitmaps, a holder count per slot, and the free
 slots chained through their own first words.  A bitmap word is the set of its one positions, as
 `BitWord` has it for the machine words.
 */
module SlabState {
  import opened Chains
  import H = HolderState

  type Words = seq<set<int>>

  datatype Slab = Slab(nslots: nat, occ: Words, mark: Words, rsbit: Words, hold: seq<int>, heads: seq<int>,
                       freelist: int, used: int, chain: seq<int>)

  // ---------------------------------------------------------------- bitmaps

  predicate WordsOk(words: Words) {
    forall w, b | 0 <= w < |words| && b in words[w] :: 0 <= b < 64
  }

  predicate InWords(words: Words, i: int) {
    0 <= i < 64 * |words| && i % 64 in words[i / 64]
  }

  /** The slots a bitmap holds. */
  ghost function Bits(words: Words): set<int> {
    set i | 0 <= i < 64 * |words| && InWords(words, i)
  }

  function WithBit(words: Words, i: int): Words
    requires 0 <= i < 64 * |words|
  {
    words[i / 64 := words[i / 64] + {i % 64}]
  }

  function WithoutBit(words: Words, i: int): Words
    requires 0 <= i < 64 * |words|
  {
    words[i / 64 := words[i / 64] - {i % 64}]
  }

  lemma {:induction false} SameSlot(i: int, j: int)
    requires i / 64 == j / 64 && i % 64 == j % 64
    ensures i == j
  {
  }

  lemma {:induction false} BitSet(words: Words, i: int)
    requires 0 <= i < 64 * |words|
    ensures Bits(WithBit(words, i)) == Bits(words) + {i}
    ensures WordsOk(words) ==> WordsOk(WithBit(words, i))
  {
    forall j | 0 <= j < 64 * |words| ensures InWords(WithBit(words, i), j) <==> InWords(words, j) || j == i {
      if j / 64 == i / 64 && j % 64 == i % 64 {
        SameSlot(i, j);
      }
    }
  }

  lemma {:induction false} BitCleared(words: Words, i: int)
    requires 0 <= i < 64 * |words|
    ensures Bits(WithoutBit(words, i)) == Bits(words) - {i}
    ensures WordsOk(words) ==> WordsOk(WithoutBit(words, i))
  {
    forall j | 0 <= j < 64 * |words| ensures InWords(WithoutBit(words, i), j) <==> InWords(words, j) && j != i {
      if j / 64 == i / 64 && j % 64 == i % 64 {
        SameSlot(i, j);
      }
    }
  }

  /** Position `b` of word `w` is slot `64 w + b`. */
  lemma {:induction false} WordOfSlot(w: int, b: int)
    requires 0 <= b < 64
    ensures (w * 64 + b) / 64 == w && (w * 64 + b) % 64 == b
  {
  }

  // ---------------------------------------------------------------- the invariant

  ghost predicate HeadOk(s: Slab, k: int)
    requires 0 <= k < |s.chain|
  {
    0 <= s.chain[k] < |s.heads| && s.heads[s.chain[k]] == At(s.chain, k + 1)
  }

  ghost predicate SlotOk(s: Slab, i: int)
    requires 0 <= i < s.nslots == |s.hold|
  {
    && (i in s.chain <==> !InWords(s.occ, i))
    && 0 <= s.hold[i] <= H.HOLD_SAT && (i in s.chain ==> s.hold[i] == 0 && !InWords(s.rsbit, i))
  }

  ghost predicate Sized(s: Slab) {
    && |s.occ| == |s.mark| == |s.rsbit| == (s.nslots + 63) / 64 && |s.hold| == |s.heads| == s.nslots
    && WordsOk(s.occ) && WordsOk(s.mark) && WordsOk(s.rsbit)
  }

  ghost predicate FreeOk(s: Slab) {
    && s.freelist == At(s.chain, 0) && NoDup(s.chain)
    && forall k {:trigger HeadOk(s, k)} | 0 <= k < |s.chain| :: HeadOk(s, k)
  }

  /**
   The free list enumerates exactly the slots that are not occupied, each once; the count of occupied
   slots is right; a free slot has no holders and no in-edge bit.
   */
  ghost predicate Inv(s: Slab) {
    && Sized(s) && FreeOk(s)
    && (forall i | i in Bits(s.occ) :: i < s.nslots) && s.used == |Bits(s.occ)|
    && forall i {:trigger SlotOk(s, i)} | 0 <= i < s.nslots :: SlotOk(s, i)
  }

  // ---------------------------------------------------------------- taking and freeing slots

  function Taken(s: Slab): Slab
    requires 0 <= s.freelist < |s.heads| && s.freelist < 64 * |s.occ| && s.chain != []
  {
    s.(freelist := s.heads[s.freelist], occ := WithBit(s.occ, s.freelist), used := s.used + 1, chain := s.chain[1..])
  }

  /** The slot handed out was not occupied and is now. */
  lemma {:induction false} TakenKeepsInv(s: Slab)
    requires Inv(s) && s.freelist >= 0
    ensures s.chain != [] && 0 <= s.freelist < s.nslots && s.freelist < 64 * |s.occ| && !InWords(s.occ, s.freelist)
    ensures Inv(Taken(s)) && Bits(Taken(s).occ) == Bits(s.occ) + {s.freelist}
  {
    assert HeadOk(s, 0);
    var w, i := Taken(s), s.freelist;
    assert i in s.chain && SlotOk(s, i);
    BitSet(s.occ, i);
    TailOfChain(s.chain);
    forall k | 0 <= k < |w.chain| ensures HeadOk(w, k) {
      assert HeadOk(s, k + 1);
    }
    forall j | 0 <= j < w.nslots ensures SlotOk(w, j) {
      assert SlotOk(s, j);
      assert j in s.chain <==> j == s.chain[0] || j in s.chain[1..];
      InWordsIff(s.occ, j);
      InWordsIff(w.occ, j);
    }
  }

  lemma {:induction false} InWordsIff(words: Words, i: int)
    ensures InWords(words, i) <==> i in Bits(words)
  {
  }

  function Freed(s: Slab, i: int): Slab
    requires 0 <= i < |s.heads| == |s.hold| && i < 64 * |s.occ| && i < 64 * |s.rsbit|
  {
    s.(heads := s.heads[i := s.freelist], freelist := i, occ := WithoutBit(s.occ, i), rsbit := WithoutBit(s.rsbit, i),
       hold := s.hold[i := 0], used := s.used - 1, chain := [i] + s.chain)
  }

  lemma {:induction false} FreedKeepsInv(s: Slab, i: int)
    requires Inv(s) && 0 <= i < s.nslots && InWords(s.occ, i)
    ensures i < 64 * |s.occ| && Inv(Freed(s, i)) && Bits(Freed(s, i).occ) == Bits(s.occ) - {i}
  {
    var w := Freed(s, i);
    assert SlotOk(s, i);
    BitCleared(s.occ, i);
    BitCleared(s.rsbit, i);
    FreedChain(s, i);
    forall j | 0 <= j < w.nslots ensures SlotOk(w, j) {
      assert SlotOk(s, j);
      assert j in w.chain <==> j == i || j in s.chain;
      InWordsIff(s.occ, j);
      InWordsIff(w.occ, j);
      InWordsIff(s.rsbit, j);
      InWordsIff(w.rsbit, j);
    }
  }

  lemma {:induction false} FreedChain(s: Slab, i: int)
    requires Inv(s) && 0 <= i < s.nslots && InWords(s.occ, i)
    ensures FreeOk(Freed(s, i))
  {
    var w := Freed(s, i);
    assert SlotOk(s, i);
    assert w.chain[0] == i && forall k | 0 < k < |w.chain| :: w.chain[k] == s.chain[k - 1];
    forall k | 0 <= k < |w.chain| ensures HeadOk(w, k) {
      if k > 0 {
        assert HeadOk(s, k - 1) && s.chain[k - 1] in s.chain;
      }
    }
    forall a, b | 0 <= a < b < |w.chain| ensures w.chain[a] != w.chain[b] {
      assert s.chain[b - 1] in s.chain;
    }
  }

  // ---------------------------------------------------------------- a new slab

  function FirstHeads(n: nat): seq<int> {
    seq(n, i => if i + 1 < n then i + 1 else -1)
  }

  ghost function Fresh(n: nat): Slab {
    var empty: Words := seq((n + 63) / 64, _ => {});
    Slab(n, empty, empty, empty, seq(n, _ => 0), FirstHeads(n), if n > 0 then 0 else -1, 0, seq(n, i => i))
  }

  lemma {:induction false} FreshInv(n: nat)
    ensures Inv(Fresh(n)) && Bits(Fresh(n).occ) == {}
  {
    var s := Fresh(n);
    forall i | 0 <= i < n ensures SlotOk(s, i) {
      assert s.chain[i] == i;
    }
  }

  // ---------------------------------------------------------------- addresses

  const SLAB_SIZE := 0x10_0000
  const SLAB_HDR := 128

  function Pow2(k: nat): (p: nat)
    ensures p >= 1
  {
    if k == 0 then 1 else 2 * Pow2(k - 1)
  }

  /** How many slots of `2^shift` bytes fit behind the header. */
  function SlotsOf(shift: nat): nat {
    Quotient(SLAB_SIZE - SLAB_HDR, Pow2(shift))
  }

  function Quotient(a: nat, b: nat): nat
    requires b >= 1
  {
    a / b
  }

  function SlotAddress(base: int, shift: nat, i: int): int {
    base + SLAB_HDR + i * Pow2(shift)
  }

  /** `slab_of`: the low 20 bits are cut off. */
  function SlabOf(p: int): int {
    p - p % SLAB_SIZE
  }

  function SlotOf(base: int, shift: nat, p: int): int {
    (p - (base + SLAB_HDR)) / Pow2(shift)
  }

  lemma {:induction false} Within(size: int, i: int, n: int, total: int, off: int)
    requires size >= 1 && 0 <= i < n == total / size && 0 <= off < size && total >= 0
    ensures 0 <= i * size + off < total && (i * size + off) / size == i
  {
    assert n * size <= total;
    assert (i + 1) * size <= n * size by { MulGrows(i + 1, n, size); }
    assert (i + 1) * size == i * size + size;
    DivOf(i * size + off, size, i, off);
    assert 0 <= i * size by { MulGrows(0, i, size); }
  }

  lemma {:induction false} MulGrows(a: int, b: int, c: int)
    requires a <= b && c >= 0
    ensures a * c <= b * c
  {
  }

  lemma {:induction false} DivOf(x: int, size: int, q: int, r: int)
    requires size >= 1 && x == q * size + r && 0 <= r < size
    ensures x / size == q
  {
    var d := x / size - q;
    assert x == x / size * size + x % size;
    assert d * size == r - x % size;
    if d >= 1 {
      MulGrows(1, d, size);
    } else if d <= -1 {
      MulGrows(d, -1, size);
    }
  }

  /** From any byte of a slot its slab and its number are found again. */
  lemma {:induction false} AddressesInvert(base: int, shift: nat, i: int, off: int)
    requires base % SLAB_SIZE == 0 && 0 <= i < SlotsOf(shift) && 0 <= off < Pow2(shift)
    ensures SlabOf(SlotAddress(base, shift, i) + off) == base
    ensures SlotOf(base, shift, SlotAddress(base, shift, i) + off) == i
  {
    Within(Pow2(shift), i, SlotsOf(shift), SLAB_SIZE - SLAB_HDR, off);
  }

  // ---------------------------------------------------------------- marks and counting

  /** Marks are no part of the invariant but for their size. */
  lemma {:induction false} SameButMarks(s: Slab, w: Slab)
    requires Inv(s) && w == s.(mark := w.mark) && |w.mark| == |s.mark| && WordsOk(w.mark)
    ensures Inv(w)
  {
    forall i | 0 <= i < w.nslots ensures SlotOk(w, i) { assert SlotOk(s, i); }
    forall k | 0 <= k < |w.chain| ensures HeadOk(w, k) { assert HeadOk(s, k); }
  }

  lemma {:induction false} SameButHold(s: Slab, w: Slab, i: int, n: int)
    requires Inv(s) && 0 <= i < s.nslots && InWords(s.occ, i) && 0 <= n <= H.HOLD_SAT && w == s.(hold := s.hold[i := n])
    ensures Inv(w)
  {
    assert SlotOk(s, i);
    forall j | 0 <= j < w.nslots ensures SlotOk(w, j) { assert SlotOk(s, j); }
    forall k | 0 <= k < |w.chain| ensures HeadOk(w, k) { assert HeadOk(s, k); }
  }

  lemma {:induction false} SameButRsbit(s: Slab, w: Slab, i: int)
    requires Inv(s) && 0 <= i < s.nslots && InWords(s.occ, i) && i < 64 * |s.rsbit|
    requires w == s.(rsbit := WithBit(s.rsbit, i))
    ensures Inv(w)
  {
    BitSet(s.rsbit, i);
    forall j | 0 <= j < w.nslots ensures SlotOk(w, j) {
      assert SlotOk(s, j);
      InWordsIff(s.rsbit, j);
      InWordsIff(w.rsbit, j);
      assert SlotOk(s, i);
    }
    forall k | 0 <= k < |w.chain| ensures HeadOk(w, k) { assert HeadOk(s, k); }
  }

  ghost function BitsUpTo(words: Words, k: nat): set<int>
    requires k <= |words|
  {
    set i | 0 <= i < 64 * k && InWords(words, i)
  }

  /** The next word adds as many slots as it has one bits. */
  lemma {:induction false} WordCounts(words: Words, k: nat)
    requires WordsOk(words) && k < |words|
    ensures |BitsUpTo(words, k + 1)| == |BitsUpTo(words, k)| + |words[k]|
  {
    Shifted(words[k], 64 * k);
    var here := Shift(words[k], 64 * k);
    forall i ensures i in BitsUpTo(words, k + 1) <==> i in BitsUpTo(words, k) || i in here {
      if 64 * k <= i < 64 * (k + 1) {
        WordOfSlot(k, i - 64 * k);
        assert i in here <==> i - 64 * k in words[k];
      }
    }
    assert BitsUpTo(words, k + 1) == BitsUpTo(words, k) + here;
    assert BitsUpTo(words, k) !! here;
  }

  ghost function Shift(s: set<int>, d: int): set<int> {
    set b | b in s :: d + b
  }

  lemma {:induction false} ShiftPlus(s: set<int>, d: int, x: int)
    ensures Shift(s + {x}, d) == Shift(s, d) + {d + x} && (d + x in Shift(s, d) <==> x in s)
  {
  }

  lemma {:induction false} Shifted(s: set<int>, d: int)
    ensures |Shift(s, d)| == |s|
    decreases |s|
  {
    if |s| > 0 {
      assert (forall y :: y !in s) ==> s == {};
      var x: int :| x in s;
      var rest := s - {x};
      assert s == rest + {x};
      Shifted(rest, d);
      ShiftPlus(rest, d, x);
    }
  }

  // ---------------------------------------------------------------- sweeping a word

  /**
   In the middle of word `w`: of what was occupied, `f` has been freed; what this word gave was not
   marked, and its slots that are left are marked or still to be freed.
   */
  ghost predicate WordProgress(o0: set<int>, o: set<int>, f0: set<int>, f: set<int>, marked: set<int>, w: int,
          dead: set<int>) {
    && f0 <= f && f !! o && o0 == o + f
    && (forall i | i in f && i !in f0 :: i / 64 == w && i % 64 !in marked)
    && (forall b | b in dead :: 0 <= b < 64 && w * 64 + b in o && b !in marked)
    && (forall i | i in o && i / 64 == w :: i % 64 in marked || i % 64 in dead)
  }

  lemma {:induction false} WordStart(s: Slab, w: int, f0: set<int>)
    requires Inv(s) && 0 <= w < |s.occ| && f0 !! Bits(s.occ)
    ensures WordProgress(Bits(s.occ) + f0, Bits(s.occ), f0, f0, s.mark[w], w, s.occ[w] - s.mark[w])
  {
    forall b | b in s.occ[w] - s.mark[w] ensures 0 <= b < 64 && w * 64 + b in Bits(s.occ) {
      WordOfSlot(w, b);
      InWordsIff(s.occ, w * 64 + b);
    }
    forall i | i in Bits(s.occ) && i / 64 == w ensures i % 64 in s.mark[w] || i % 64 in s.occ[w] - s.mark[w] {
      InWordsIff(s.occ, i);
    }
  }

  lemma {:induction false} WordStep(o0: set<int>, o: set<int>, f0: set<int>, f: set<int>, marked: set<int>, w: int,
          dead: set<int>, b: int, i: int)
    requires WordProgress(o0, o, f0, f, marked, w, dead) && b in dead && i == w * 64 + b
    ensures i in o && i !in f && WordProgress(o0, o - {i}, f0, f + {i}, marked, w, dead - {b})
  {
    WordOfSlot(w, b);
    forall c | c in dead - {b} ensures w * 64 + c in o - {i} {
      WordOfSlot(w, c);
    }
    StepLeaves(o, marked, w, dead, b, i);
  }

  lemma {:induction false} StepLeaves(o: set<int>, marked: set<int>, w: int, dead: set<int>, b: int, i: int)
    requires i / 64 == w && i % 64 == b
    requires forall j {:trigger j in o} | j in o && j / 64 == w :: j % 64 in marked || j % 64 in dead
    ensures forall j | j in o - {i} && j / 64 == w :: j % 64 in marked || j % 64 in dead - {b}
  {
    forall j | j in o - {i} && j / 64 == w ensures j % 64 in marked || j % 64 in dead - {b} {
      if j % 64 == b {
        SameSlot(i, j);
      }
    }
  }

  /** Words below `w` have been swept. */
  ghost predicate SweptBelow(o0: set<int>, o: set<int>, f: set<int>, m0: set<int>, w: int) {
    && f !! o && o0 == o + f && f !! m0
    && forall i | i in o && i / 64 < w :: i in m0
  }

  lemma {:induction false} SweptMore(o0: set<int>, o: set<int>, o': set<int>, f0: set<int>, f: set<int>, mark: Words,
          w: int)
    requires SweptBelow(o0, o, f0, Bits(mark), w) && 0 <= w < |mark| && WordProgress(o0, o', f0, f, mark[w], w, {})
    requires forall i | i in o :: i >= 0
    ensures SweptBelow(o0, o', f, Bits(mark), w + 1)
  {
    forall i | i in f ensures i !in Bits(mark) {
      InWordsIff(mark, i);
    }
    forall i | i in o' && i / 64 < w + 1 ensures i in Bits(mark) {
      assert i in o by { assert i in o0 && i !in f0; }
      InWordsIff(mark, i);
    }
  }

  lemma {:induction false} AllSwept(s: Slab, o0: set<int>, f: set<int>, w: int)
    requires Inv(s) && w == |s.occ| && SweptBelow(o0, Bits(s.occ), f, Bits(s.mark), w)
    ensures Bits(s.occ) == o0 * Bits(s.mark) && f == o0 - Bits(s.mark)
  {
    forall i | i in Bits(s.occ) ensures i in Bits(s.mark) {
      assert i / 64 < w;
    }
  }

  /** Slots still occupied have the same holders and in-edge bit as before. */
  ghost predicate KeptSlots(s: Slab, w: Slab) {
    forall i {:trigger SameSlots(s, w, i)} | i in Bits(w.occ) :: SameSlots(s, w, i)
  }

  ghost predicate SameSlots(s: Slab, w: Slab, i: int) {
    && i in Bits(s.occ) && 0 <= i < |s.hold| && i < |w.hold| && w.hold[i] == s.hold[i]
    && (InWords(w.rsbit, i) <==> InWords(s.rsbit, i))
  }

  lemma {:induction false} FreedKeepsSlots(s0: Slab, s: Slab, i: int)
    requires Inv(s) && KeptSlots(s0, s) && 0 <= i < s.nslots && InWords(s.occ, i)
    ensures i < 64 * |s.rsbit| && KeptSlots(s0, Freed(s, i))
  {
    var w := Freed(s, i);
    BitCleared(s.occ, i);
    BitCleared(s.rsbit, i);
    forall j | j in Bits(w.occ) ensures SameSlots(s0, w, j) {
      assert SameSlots(s0, s, j) && j != i;
      InWordsIff(s.rsbit, j);
      InWordsIff(w.rsbit, j);
    }
  }

  lemma {:induction false} StepFrees(s0: Slab, s: Slab, i: int)
    requires Inv(s) && KeptSlots(s0, s) && i in Bits(s.occ)
    ensures 0 <= i < s.nslots && i < 64 * |s.rsbit| && i < 64 * |s.occ| && KeptSlots(s0, Freed(s, i))
  {
    InWordsIff(s.occ, i);
    FreedKeepsSlots(s0, s, i);
  }

  lemma {:induction false} NothingFreed(s: Slab)
    requires Inv(s)
    ensures KeptSlots(s, s)
  {
  }

  lemma {:induction false} KeptIgnoresMarks(s: Slab, w: Slab, w': Slab)
    requires KeptSlots(s, w) && w' == w.(mark := w'.mark)
    ensures KeptSlots(s, w')
  {
    forall i | i in Bits(w'.occ) ensures SameSlots(s, w', i) {
      assert SameSlots(s, w, i);
    }
  }

  /** Slots of different slabs, and different slots of one slab, have different addresses. */
  lemma {:induction false} AddressesDiffer(base: int, shift: nat, i: int, base': int, shift': nat, i': int)
    requires base % SLAB_SIZE == 0 && 0 <= i < SlotsOf(shift) && base' % SLAB_SIZE == 0 && 0 <= i' < SlotsOf(shift')
    requires base != base' || (shift == shift' && i != i')
    ensures SlotAddress(base, shift, i) != SlotAddress(base', shift', i')
  {
    AddressesInvert(base, shift, i, 0);
    AddressesInvert(base', shift', i', 0);
  }

  /** From the address of a slot its slab and its number are found again. */
  lemma {:induction false} SlotFound(base: nat, shift: nat, i: int)
    requires base % SLAB_SIZE == 0 && 0 <= i < SlotsOf(shift)
    ensures var p := SlotAddress(base, shift, i); p >= 0 && SlabOf(p) == base && SlotOf(base, shift, p) == i
  {
    AddressesInvert(base, shift, i, 0);
    AddressPositive(base, shift, i);
  }

  lemma {:induction false} AddressPositive(base: int, shift: nat, i: int)
    requires base >= 0 && i >= 0
    ensures SlotAddress(base, shift, i) >= 0
  {
    MulGrows(0, i, Pow2(shift));
  }

  // ---------------------------------------------------------------- slots as objects

  /** Slot `i` is occupied exactly if there is an object at its address, whose count is the slot's. */
  ghost predicate AtSlot(objs: map<int, int>, base: int, shift: nat, s: Slab, i: int)
    requires 0 <= i < |s.hold|
  {
    var p := SlotAddress(base, shift, i);
    && (i in Bits(s.occ) <==> p in objs)
    && (p in objs ==> objs[p] == s.hold[i])
  }

  /** The objects in a slab are its occupied slots, with their holder counts. */
  ghost predicate ObjsMatch(objs: map<int, int>, base: int, shift: nat, s: Slab) {
    && |s.hold| == s.nslots
    && forall i {:trigger AtSlot(objs, base, shift, s, i)} | 0 <= i < s.nslots :: AtSlot(objs, base, shift, s, i)
  }

  /** A slab with its slots where its base and shift say. */
  ghost predicate Placed(base: int, shift: nat, s: Slab) {
    Inv(s) && s.nslots == SlotsOf(shift) && base % SLAB_SIZE == 0
  }

  ghost predicate SameBut(objs: map<int, int>, objs': map<int, int>, p: int) {
    forall q | q != p :: (q in objs' <==> q in objs) && (q in objs ==> objs'[q] == objs[q])
  }

  /** What happens to an object of another slab does not concern this one. */
  lemma {:induction false} OtherSlabMatches(objs: map<int, int>, objs': map<int, int>, base: int, shift: nat, s: Slab,
          base': int, shift': nat, i: int)
    requires ObjsMatch(objs, base, shift, s) && Placed(base, shift, s)
    requires base' != base && base' % SLAB_SIZE == 0 && 0 <= i < SlotsOf(shift')
    requires SameBut(objs, objs', SlotAddress(base', shift', i))
    ensures ObjsMatch(objs', base, shift, s)
  {
    forall j | 0 <= j < s.nslots ensures AtSlot(objs', base, shift, s, j) {
      assert AtSlot(objs, base, shift, s, j);
      AddressesDiffer(base, shift, j, base', shift', i);
    }
  }

  /** The other slots of a slab whose slot `i` changes. */
  lemma {:induction false} OtherSlotMatches(objs: map<int, int>, objs': map<int, int>, base: int, shift: nat, s: Slab,
          w: Slab, i: int, j: int)
    requires ObjsMatch(objs, base, shift, s) && Placed(base, shift, s)
    requires 0 <= i < s.nslots && 0 <= j < s.nslots && i != j && SameBut(objs, objs', SlotAddress(base, shift, i))
    requires |w.hold| == |s.hold| && w.hold[j] == s.hold[j] && (j in Bits(w.occ) <==> j in Bits(s.occ))
    ensures AtSlot(objs', base, shift, w, j)
  {
    assert AtSlot(objs, base, shift, s, j);
    AddressesDiffer(base, shift, j, base, shift, i);
  }

  lemma {:induction false} ObjTaken(objs: map<int, int>, base: int, shift: nat, s: Slab)
    requires ObjsMatch(objs, base, shift, s) && Placed(base, shift, s) && s.freelist >= 0
    ensures s.chain != [] && s.freelist < s.nslots && s.freelist < 64 * |s.occ|
    ensures var p := SlotAddress(base, shift, s.freelist);
            p !in objs && ObjsMatch(objs[p := 0], base, shift, Taken(s))
  {
    TakenKeepsInv(s);
    var i, w := s.freelist, Taken(s);
    var after := objs[SlotAddress(base, shift, i) := 0];
    InWordsIff(s.occ, i);
    assert HeadOk(s, 0) && i in s.chain && SlotOk(s, i) && AtSlot(objs, base, shift, s, i);
    forall j | 0 <= j < w.nslots ensures AtSlot(after, base, shift, w, j) {
      if j != i {
        OtherSlotMatches(objs, after, base, shift, s, w, i, j);
      }
    }
  }

  lemma {:induction false} ObjFreed(objs: map<int, int>, base: int, shift: nat, s: Slab, i: int)
    requires ObjsMatch(objs, base, shift, s) && Placed(base, shift, s) && 0 <= i < s.nslots && i in Bits(s.occ)
    ensures i < 64 * |s.occ| && i < 64 * |s.rsbit| && i < |s.heads|
    ensures ObjsMatch(objs - {SlotAddress(base, shift, i)}, base, shift, Freed(s, i))
  {
    InWordsIff(s.occ, i);
    FreedKeepsInv(s, i);
    var w, after := Freed(s, i), objs - {SlotAddress(base, shift, i)};
    forall j | 0 <= j < w.nslots ensures AtSlot(after, base, shift, w, j) {
      if j != i {
        OtherSlotMatches(objs, after, base, shift, s, w, i, j);
      }
    }
  }

  lemma {:induction false} ObjHeld(objs: map<int, int>, base: int, shift: nat, s: Slab, i: int, n: int)
    requires ObjsMatch(objs, base, shift, s) && Placed(base, shift, s) && 0 <= i < s.nslots && i in Bits(s.occ)
    ensures ObjsMatch(objs[SlotAddress(base, shift, i) := n], base, shift, s.(hold := s.hold[i := n]))
  {
    var w, after := s.(hold := s.hold[i := n]), objs[SlotAddress(base, shift, i) := n];
    forall j | 0 <= j < w.nslots ensures AtSlot(after, base, shift, w, j) {
      if j != i {
        OtherSlotMatches(objs, after, base, shift, s, w, i, j);
      }
    }
  }

  lemma {:induction false} FreshMatches(objs: map<int, int>, base: int, shift: nat, s: Slab)
    requires Inv(s) && Bits(s.occ) == {} && forall i | 0 <= i < s.nslots :: SlotAddress(base, shift, i) !in objs
    ensures ObjsMatch(objs, base, shift, s)
  {
  }

  // ---------------------------------------------------------------- slot sizes

  lemma {:induction false} Pow2Grows(a: nat, b: nat)
    requires a <= b
    ensures Pow2(a) <= Pow2(b)
    decreases b - a
  {
    if a < b {
      Pow2Grows(a, b - 1);
    }
  }

  /** A slab has slots exactly when one fits behind its header, which is up to half the slab. */
  lemma {:induction false} HasSlotsIff(shift: nat)
    ensures SlotsOf(shift) > 0 <==> Pow2(shift) <= 0x8_0000
  {
    assert Pow2(10) == 1024;
    assert Pow2(19) == 0x8_0000 && Pow2(20) == 0x10_0000;
    if shift <= 19 {
      Pow2Grows(shift, 19);
      QuotientPositive(SLAB_SIZE - SLAB_HDR, Pow2(shift));
    } else {
      Pow2Grows(20, shift);
      QuotientPositive(SLAB_SIZE - SLAB_HDR, Pow2(shift));
    }
  }

  lemma {:induction false} QuotientPositive(a: nat, b: nat)
    requires b >= 1
    ensures Quotient(a, b) > 0 <==> b <= a
  {
    assert a == a / b * b + a % b;
    assert a / b == 0 ==> a / b * b == 0;
    if a < b {
      DivOf(a, b, 0, a);
    }
  }

  /** The smallest shift for a power of two is its exponent. */
  lemma {:induction false} ExactShift(shift: nat, k: nat)
    requires Pow2(shift) >= Pow2(k) && (shift > 0 ==> Pow2(shift - 1) < Pow2(k))
    ensures Pow2(shift) == Pow2(k)
  {
    if shift > k {
      Pow2Grows(k, shift - 1);
    } else {
      Pow2Grows(shift, k);
    }
  }

  /** Rounding a request up to a power of two passes half a slab exactly if the request does. */
  lemma {:induction false} SizeWithin(n: nat, size: nat, k: nat)
    requires size == Pow2(k) && size >= n && size >= 16 && (size == 16 || size < 2 * n)
    ensures size <= 0x8_0000 <==> n <= 0x8_0000
  {
    assert Pow2(10) == 1024;
    assert Pow2(19) == 0x8_0000 && Pow2(20) == 0x10_0000;
    if k >= 20 {
      Pow2Grows(20, k);
    } else {
      Pow2Grows(k, 19);
    }
  }

  // ---------------------------------------------------------------- sweeping a list of slabs

  /** What was occupied and marked is still occupied, with the same holders, and no marks are left. */
  ghost predicate Swept(s: Slab, w: Slab) {
    Bits(w.occ) == Bits(s.occ) * Bits(s.mark) && Bits(w.mark) == {} && KeptSlots(s, w)
  }

  ghost predicate SweptEach(before: seq<Slab>, after: seq<Slab>) {
    |before| == |after| && forall j {:trigger after[j]} | 0 <= j < |after| :: Swept(before[j], after[j])
  }

  lemma {:induction false} SweptPlus(before: seq<Slab>, after: seq<Slab>, w: Slab)
    requires |after| < |before| && SweptEach(before[..|after|], after) && Swept(before[|after|], w)
    ensures SweptEach(before[..|after + [w]|], after + [w])
  {
    forall i | 0 <= i < |after + [w]| ensures Swept(before[..|after + [w]|][i], (after + [w])[i]) {
      assert i < |after| ==> before[..|after|][i] == before[i] && (after + [w])[i] == after[i];
    }
  }

  /** So many slots, in bytes. */
  function SlotBytes(n: nat, shift: nat): int {
    n * Pow2(shift)
  }

  /** The bytes of the occupied slots. */
  ghost function Payload(slabs: seq<Slab>, shifts: seq<nat>): int
    requires |slabs| == |shifts|
  {
    if slabs == [] then 0
    else
      var last := |slabs| - 1;
      Payload(slabs[..last], shifts[..last]) + SlotBytes(|Bits(slabs[last].occ)|, shifts[last])
  }

  /** How many slots a sweep of these slabs frees. */
  ghost function DeadSlots(slabs: seq<Slab>): int {
    if slabs == [] then 0
    else DeadSlots(slabs[..|slabs| - 1]) + |Bits(slabs[|slabs| - 1].occ) - Bits(slabs[|slabs| - 1].mark)|
  }

  lemma {:induction false} DeadSlotsPlus(slabs: seq<Slab>, j: nat)
    requires j < |slabs|
    ensures DeadSlots(slabs[..j + 1]) == DeadSlots(slabs[..j]) + |Bits(slabs[j].occ) - Bits(slabs[j].mark)|
  {
    assert slabs[..j + 1][..j] == slabs[..j];
  }

  lemma {:induction false} PayloadPlus(slabs: seq<Slab>, shifts: seq<nat>, j: nat)
    requires |slabs| == |shifts| && j < |slabs|
    ensures Payload(slabs[..j + 1], shifts[..j + 1])
            == Payload(slabs[..j], shifts[..j]) + SlotBytes(|Bits(slabs[j].occ)|, shifts[j])
  {
    assert slabs[..j + 1][..j] == slabs[..j] && shifts[..j + 1][..j] == shifts[..j];
  }
}
