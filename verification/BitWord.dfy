/**
 The 64-bit words of the slab bitmaps, and the sets of positions they stand for: what the word
 operations, counting trailing zeros and counting one bits do to those sets.
 */
module BitWord {
  /** `p << 1`. */
  function Doubled(p: bv64): bv64 {
    p + p
  }

  /** `1 << i`. */
  function One(i: nat): bv64 {
    if i == 0 then 1 else Doubled(One(i - 1))
  }

  /** `w | p`. */
  function With(w: bv64, p: bv64): bv64 {
    w | p
  }

  /** `w & ~p`. */
  function Minus(w: bv64, p: bv64): bv64 {
    w & !p
  }

  /** `w & (w - 1)`. */
  function Rest(w: bv64): bv64 {
    w & (w - 1)
  }

  /** `w & p`. */
  function Common(w: bv64, p: bv64): bv64 {
    w & p
  }

  predicate Meets(w: bv64, p: bv64) {
    Common(w, p) != 0
  }

  /** Is bit `i` of the word set. */
  predicate Has(w: bv64, i: nat) {
    Meets(w, One(i))
  }

  /** The positions of the one bits. */
  ghost function Bits(w: bv64): set<int> {
    set i | 0 <= i < 64 && Has(w, i)
  }

  // ---------------------------------------------------------------- facts about words alone

  /** A power of two. */
  predicate Single(p: bv64) {
    p != 0 && p & (p - 1) == 0
  }

  lemma {:induction false} DoubleApart(p: bv64, q: bv64)
    requires !Meets(p, q)
    ensures !Meets(Doubled(p), Doubled(q))
  {
  }

  lemma {:induction false} DoubleEven(p: bv64)
    ensures !Meets(1, Doubled(p)) && !Meets(Doubled(p), 1)
  {
  }

  lemma {:induction false} DoubleSingle(p: bv64)
    requires Single(p)
    ensures Doubled(p) == 0 || Single(Doubled(p))
  {
  }

  lemma {:induction false} WithItself(w: bv64, p: bv64)
    ensures Common(With(w, p), p) == p
  {
  }

  lemma {:induction false} WithElsewhere(w: bv64, q: bv64, p: bv64)
    requires Common(q, p) == 0
    ensures Common(With(w, q), p) == Common(w, p)
  {
  }

  lemma {:induction false} MinusElsewhere(w: bv64, q: bv64, p: bv64)
    requires Common(q, p) == 0
    ensures Common(Minus(w, q), p) == Common(w, p)
  {
  }

  lemma {:induction false} MinusItself(w: bv64, q: bv64, p: bv64)
    requires Common(q, p) == p
    ensures Common(Minus(w, q), p) == 0
  {
  }

  /** Of a power of two a word has nothing or all. */
  lemma {:induction false} NoneOrAll(w: bv64, p: bv64)
    requires Single(p)
    ensures Common(w, p) == 0 || Common(w, p) == p
  {
  }

  lemma {:induction false} CommonItself(p: bv64)
    ensures Common(p, p) == p
  {
  }

  /** No one bit under the bit `p`. */
  predicate Under(w: bv64, p: bv64) {
    w & (p - 1) == 0
  }

  lemma {:induction false} UnderNext(w: bv64, p: bv64)
    requires Single(p)
    ensures Under(w, Doubled(p)) <==> Under(w, p) && !Meets(w, p)
  {
    DoubledLess(p);
    NoneOfBoth(w, p - 1, p);
  }

  lemma {:induction false} DoubledLess(p: bv64)
    requires Single(p)
    ensures Doubled(p) - 1 == With(p - 1, p)
  {
  }

  lemma {:induction false} NoneOfBoth(w: bv64, v: bv64, p: bv64)
    ensures Common(w, With(v, p)) == 0 <==> Common(w, v) == 0 && Common(w, p) == 0
  {
    if Common(w, With(v, p)) == 0 {
      NoneOfMore(w, v, p);
      NoneOfMore(w, p, v);
    }
    if Common(w, v) == 0 && Common(w, p) == 0 {
      NoneOfEither(w, v, p);
    }
  }

  lemma {:induction false} NoneOfMore(w: bv64, v: bv64, p: bv64)
    requires Common(w, With(v, p)) == 0 || Common(w, With(p, v)) == 0
    ensures Common(w, v) == 0
  {
  }

  lemma {:induction false} NoneOfEither(w: bv64, v: bv64, p: bv64)
    requires Common(w, v) == 0 && Common(w, p) == 0
    ensures Common(w, With(v, p)) == 0
  {
  }

  lemma {:induction false} UnderFirst(w: bv64)
    ensures Under(w, 1) && (Under(w, 0) ==> w == 0) && Single(1)
  {
  }

  lemma {:induction false} RestDropsLowest(w: bv64, p: bv64)
    requires Single(p) && Under(w, p) && Meets(w, p)
    ensures Rest(w) == Minus(w, p)
  {
    OneLess(w, p);
    RestOfOneLess(w, p);
  }

  lemma {:induction false} OneLess(w: bv64, p: bv64)
    requires Single(p) && Under(w, p) && Meets(w, p)
    ensures w - 1 == With(Minus(w, p), p - 1)
  {
  }

  lemma {:induction false} RestOfOneLess(w: bv64, p: bv64)
    requires Under(w, p) && w - 1 == With(Minus(w, p), p - 1)
    ensures Rest(w) == Minus(w, p)
  {
  }

  // ---------------------------------------------------------------- single bits

  lemma {:induction false} TopBit()
    ensures One(63) == 0x8000_0000_0000_0000 && One(64) == 0
  {
    assert One(8) == 0x100;
    assert One(16) == 0x1_0000;
    assert One(24) == 0x100_0000;
    assert One(32) == 0x1_0000_0000;
    assert One(40) == 0x100_0000_0000;
    assert One(48) == 0x1_0000_0000_0000;
    assert One(56) == 0x100_0000_0000_0000;
  }

  lemma {:induction false} ZeroStays(i: nat, j: nat)
    requires i <= j && One(i) == 0
    ensures One(j) == 0
    decreases j - i
  {
    if i < j {
      ZeroStays(i, j - 1);
    }
  }

  lemma {:induction false} OneIsSingle(i: nat)
    requires i < 64
    ensures Single(One(i))
  {
    UnderFirst(0);
    if i > 0 {
      OneIsSingle(i - 1);
      DoubleSingle(One(i - 1));
      OneIsNotZero(i);
    }
  }

  lemma {:induction false} OneIsNotZero(i: nat)
    requires i < 64
    ensures One(i) != 0
  {
    TopBit();
    if One(i) == 0 {
      ZeroStays(i, 63);
    }
  }

  lemma {:induction false} OnesApart(i: nat, j: nat)
    requires i != j
    ensures !Meets(One(i), One(j))
  {
    if i > 0 && j > 0 {
      OnesApart(i - 1, j - 1);
      DoubleApart(One(i - 1), One(j - 1));
    } else if i > 0 {
      DoubleEven(One(i - 1));
    } else {
      DoubleEven(One(j - 1));
    }
  }

  // ---------------------------------------------------------------- setting, clearing, taking away

  /** `w |= 1 << b` adds exactly position `b`. */
  lemma {:induction false} SetBit(w: bv64, b: nat)
    requires b < 64
    ensures Bits(With(w, One(b))) == Bits(w) + {b}
  {
    forall i: nat | i < 64 ensures Has(With(w, One(b)), i) <==> Has(w, i) || i == b {
      SetBitAt(w, b, i);
    }
  }

  lemma {:induction false} SetBitAt(w: bv64, b: nat, i: nat)
    requires b < 64
    ensures Has(With(w, One(b)), i) <==> Has(w, i) || i == b
    ensures Has(Minus(w, One(b)), i) <==> Has(w, i) && i != b
  {
    if i == b {
      SetOwnBit(w, b);
    } else {
      OnesApart(b, i);
      OtherBit(w, One(b), i);
    }
  }

  lemma {:induction false} OtherBit(w: bv64, q: bv64, i: nat)
    requires Common(q, One(i)) == 0
    ensures Has(With(w, q), i) <==> Has(w, i)
    ensures Has(Minus(w, q), i) <==> Has(w, i)
  {
    StaysSet(w, q, i, One(i));
    StaysUncleared(w, q, i, One(i));
  }

  lemma {:induction false} StaysSet(w: bv64, q: bv64, i: nat, p: bv64)
    requires p == One(i) && Common(q, p) == 0
    ensures Has(With(w, q), i) <==> Has(w, i)
  {
    WithElsewhere(w, q, p);
    SameHas(With(w, q), w, i, p);
  }

  lemma {:induction false} StaysUncleared(w: bv64, q: bv64, i: nat, p: bv64)
    requires p == One(i) && Common(q, p) == 0
    ensures Has(Minus(w, q), i) <==> Has(w, i)
  {
    MinusElsewhere(w, q, p);
    SameHas(Minus(w, q), w, i, p);
  }

  lemma {:induction false} SameHas(v: bv64, w: bv64, i: nat, p: bv64)
    requires p == One(i) && Common(v, p) == Common(w, p)
    ensures Has(v, i) <==> Has(w, i)
  {
  }

  lemma {:induction false} SetOwnBit(w: bv64, b: nat)
    requires b < 64
    ensures Has(With(w, One(b)), b) && !Has(Minus(w, One(b)), b)
  {
    OneIsNotZero(b);
    OwnBit(w, One(b), b);
  }

  lemma {:induction false} OwnBit(w: bv64, p: bv64, b: nat)
    requires p == One(b) && p != 0
    ensures Has(With(w, p), b) && !Has(Minus(w, p), b)
  {
    WithItself(w, p);
    CommonItself(p);
    MinusItself(w, p, p);
  }

  lemma {:induction false} InBits(w: bv64, i: nat)
    requires i < 64
    ensures i in Bits(w) <==> Has(w, i)
  {
  }

  /** `w &= ~(1 << b)` takes away exactly position `b`. */
  lemma {:induction false} ClearBit(w: bv64, b: nat)
    requires b < 64
    ensures Bits(Minus(w, One(b))) == Bits(w) - {b}
  {
    forall i: nat | i < 64 ensures Has(Minus(w, One(b)), i) <==> Has(w, i) && i != b {
      SetBitAt(w, b, i);
    }
  }

  /** `occ & ~mark`: the difference of the sets. */
  lemma {:induction false} AndNot(w: bv64, v: bv64)
    ensures Bits(Minus(w, v)) == Bits(w) - Bits(v)
  {
    forall i: nat | i < 64 ensures Has(Minus(w, v), i) <==> Has(w, i) && !Has(v, i) {
      AndNotAt(w, v, i);
    }
  }

  lemma {:induction false} AndNotAt(w: bv64, v: bv64, i: nat)
    requires i < 64
    ensures Has(Minus(w, v), i) <==> Has(w, i) && !Has(v, i)
  {
    OneIsSingle(i);
    OneIsNotZero(i);
    NoneOrAll(v, One(i));
    if Common(v, One(i)) == 0 {
      MinusElsewhere(w, v, One(i));
    } else {
      MinusItself(w, v, One(i));
    }
  }

  // ---------------------------------------------------------------- the lowest bit

  /** No position below `c`. */
  predicate ClearBelow(w: bv64, c: nat) {
    Under(w, One(c))
  }

  lemma {:induction false} ClearNext(w: bv64, c: nat)
    requires c < 64
    ensures ClearBelow(w, c + 1) <==> ClearBelow(w, c) && !Has(w, c)
  {
    OneIsSingle(c);
    UnderNext(w, One(c));
  }

  lemma {:induction false} ClearEnds(w: bv64)
    ensures ClearBelow(w, 0) && (ClearBelow(w, 64) ==> w == 0)
  {
    TopBit();
    UnderFirst(w);
  }

  lemma {:induction false} ClearBelowIff(w: bv64, c: nat)
    requires c <= 64
    ensures ClearBelow(w, c) <==> forall i | i in Bits(w) :: c <= i
  {
    ClearEnds(w);
    if c > 0 {
      ClearBelowIff(w, c - 1);
      ClearNext(w, c - 1);
      InBits(w, c - 1);
    }
  }

  /** A word is zero exactly when it has no positions, so the sweep's inner loop takes every dead slot. */
  lemma {:induction false} ZeroIff(w: bv64)
    ensures w == 0 <==> Bits(w) == {}
  {
    if w == 0 {
      forall i: nat | i < 64 ensures !Has(w, i) {
        ZeroHasNone(One(i));
      }
    } else {
      ClearEnds(w);
      ClearBelowIff(w, 64);
    }
  }

  lemma {:induction false} ZeroHasNone(p: bv64)
    ensures !Meets(0, p)
  {
  }

  /** `w &= w - 1` takes away exactly the lowest position. */
  lemma {:induction false} DropLowest(w: bv64, b: nat)
    requires b in Bits(w) && forall i | i in Bits(w) :: b <= i
    ensures Bits(Rest(w)) == Bits(w) - {b}
  {
    ClearBelowIff(w, b);
    OneIsSingle(b);
    RestDropsLowest(w, One(b));
    ClearBit(w, b);
  }

  // ---------------------------------------------------------------- bitmaps

  /** The words of a bitmap as sets of positions. */
  ghost function Sets(words: seq<bv64>): (s: seq<set<int>>)
    ensures |s| == |words| && forall k | 0 <= k < |words| :: s[k] == Bits(words[k])
  {
    seq(|words|, k requires 0 <= k < |words| => Bits(words[k]))
  }

  lemma {:induction false} SetsUpdate(words: seq<bv64>, k: nat, w: bv64)
    requires k < |words|
    ensures Sets(words[k := w]) == Sets(words)[k := Bits(w)]
  {
  }

  /** `words[i >> 6] |= 1 << (i & 63)`. */
  method SetIn(words: seq<bv64>, i: nat) returns (after: seq<bv64>)
    requires i < 64 * |words|
    ensures |after| == |words| && Sets(after) == Sets(words)[i / 64 := Sets(words)[i / 64] + {i % 64}]
  {
    var w := With(words[i / 64], One(i % 64));
    SetBit(words[i / 64], i % 64);
    SetsUpdate(words, i / 64, w);
    after := words[i / 64 := w];
  }

  /** `words[i >> 6] &= ~(1 << (i & 63))`. */
  method ClearIn(words: seq<bv64>, i: nat) returns (after: seq<bv64>)
    requires i < 64 * |words|
    ensures |after| == |words| && Sets(after) == Sets(words)[i / 64 := Sets(words)[i / 64] - {i % 64}]
  {
    var w := Minus(words[i / 64], One(i % 64));
    ClearBit(words[i / 64], i % 64);
    SetsUpdate(words, i / 64, w);
    after := words[i / 64 := w];
  }

  /** `(words[i >> 6] >> (i & 63)) & 1`. */
  method TestIn(words: seq<bv64>, i: nat) returns (b: bool)
    requires i < 64 * |words|
    ensures b <==> i % 64 in Sets(words)[i / 64]
  {
    b := Has(words[i / 64], i % 64);
    InBits(words[i / 64], i % 64);
  }

  /** A bitmap of so many words, all zero. */
  method Zeros(n: nat) returns (words: seq<bv64>)
    ensures |words| == n && Sets(words) == seq(n, _ => {})
  {
    words := seq(n, _ => 0);
    ZeroIff(0);
    forall k | 0 <= k < n ensures Sets(words)[k] == {} {
      assert words[k] == 0;
    }
  }

  /** Counting trailing zeros, which is not called for zero, finds the lowest position. */
  method TrailingZeros(w: bv64) returns (b: nat)
    requires Bits(w) != {}
    ensures b in Bits(w) && forall i | i in Bits(w) :: b <= i
  {
    var p: bv64 := 1;
    b := 0;
    ClearEnds(w);
    ClearBelowIff(w, 64);
    while !Meets(w, p)
      invariant b < 64 && p == One(b) && ClearBelow(w, b)
      decreases 64 - b
    {
      ClearNext(w, b);
      b, p := b + 1, Doubled(p);
    }
    ClearBelowIff(w, b);
  }

  /** The lowest position and `w & (w - 1)`, the others; not for zero. */
  method PopLowest(w: bv64) returns (b: nat, rest: bv64)
    requires Bits(w) != {}
    ensures b in Bits(w) && (forall i | i in Bits(w) :: b <= i) && Bits(rest) == Bits(w) - {b}
    ensures |Bits(rest)| == |Bits(w)| - 1 && (rest == 0 <==> Bits(rest) == {})
  {
    b := TrailingZeros(w);
    DropLowest(w, b);
    rest := Rest(w);
    ZeroIff(rest);
  }

  /** `occ & ~mark`. */
  method Unmarked(occ: bv64, mark: bv64) returns (dead: bv64)
    ensures Bits(dead) == Bits(occ) - Bits(mark) && (dead == 0 <==> Bits(dead) == {})
  {
    AndNot(occ, mark);
    dead := Minus(occ, mark);
    ZeroIff(dead);
  }

  /** Counting the one bits: each round takes the lowest one away. */
  method CountOnes(w: bv64) returns (n: nat)
    ensures n == |Bits(w)|
  {
    var rest := w;
    n := 0;
    ZeroIff(rest);
    while rest != 0
      invariant n + |Bits(rest)| == |Bits(w)| && (rest == 0 <==> Bits(rest) == {})
      decreases |Bits(rest)|
    {
      var b;
      b, rest := PopLowest(rest);
      n := n + 1;
    }
  }
}
