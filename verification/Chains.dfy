/** Sequences seen as chains of distinct members, and what removing members does to them. */
module Chains {
  /** Entry `i` of a chain, or -1 past its end: what a link field holds. */
  function At(chain: seq<int>, i: nat): int {
    if i < |chain| then chain[i] else -1
  }

  ghost predicate NoDup(chain: seq<int>) {
    forall i, j | 0 <= i < j < |chain| :: chain[i] != chain[j]
  }

  /** The chain without the members in `d`, in the same order. */
  function Without(chain: seq<int>, d: set<int>): seq<int> {
    if chain == [] then []
    else if chain[0] in d then Without(chain[1..], d)
    else [chain[0]] + Without(chain[1..], d)
  }

  lemma {:induction false} WithoutMember(chain: seq<int>, d: set<int>, x: int)
    ensures x in Without(chain, d) <==> x in chain && x !in d
  {
    if chain != [] {
      WithoutMember(chain[1..], d, x);
      assert x in chain <==> x == chain[0] || x in chain[1..];
    }
  }

  lemma {:induction false} WithoutTwice(chain: seq<int>, d: set<int>, e: set<int>)
    ensures Without(Without(chain, d), e) == Without(chain, d + e)
  {
    if chain != [] {
      WithoutTwice(chain[1..], d, e);
      if chain[0] !in d {
        assert Without(chain, d)[1..] == Without(chain[1..], d);
      }
    }
  }

  lemma {:induction false} WithoutSame(chain: seq<int>, d: set<int>, e: set<int>)
    requires forall x | x in chain :: x in d <==> x in e
    ensures Without(chain, d) == Without(chain, e)
  {
    if chain != [] {
      var first := chain[0];
      assert first in chain && (first in d <==> first in e);
      WithoutSame(chain[1..], d, e);
    }
  }

  lemma {:induction false} WithoutNone(chain: seq<int>, d: set<int>)
    requires forall x | x in chain :: x !in d
    ensures Without(chain, d) == chain
  {
    if chain != [] {
      var first := chain[0];
      assert first in chain && first !in d;
      WithoutNone(chain[1..], d);
      assert chain == [chain[0]] + chain[1..];
    }
  }

  lemma {:induction false} WithoutOne(chain: seq<int>, i: nat)
    requires NoDup(chain) && i < |chain|
    ensures Without(chain, {chain[i]}) == chain[..i] + chain[i + 1..]
  {
    if i == 0 {
      WithoutNone(chain[1..], {chain[0]});
    } else {
      assert chain[1..][i - 1] == chain[i];
      WithoutOne(chain[1..], i - 1);
      assert chain[..i] + chain[i + 1..] == [chain[0]] + (chain[1..][..i - 1] + chain[1..][i..]);
    }
  }

  /** The chain after its head has been taken off. */
  lemma {:induction false} TailOfChain(chain: seq<int>)
    requires NoDup(chain) && chain != []
    ensures NoDup(chain[1..]) && chain[0] !in chain[1..]
    ensures forall k: nat {:trigger At(chain[1..], k)} :: At(chain[1..], k) == At(chain, k + 1)
  {
    forall i, j | 0 <= i < j < |chain[1..]| ensures chain[1..][i] != chain[1..][j] {
      assert chain[i + 1] != chain[j + 1];
    }
  }
}
