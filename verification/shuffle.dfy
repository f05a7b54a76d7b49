/** The Fisher–Yates shuffle of `shuffleArray`. The random draw
    `Math.floor(Math.random() * (i + 1))` is modelled by an arbitrary source
    `rand`: the index used at step `i` is `rand(i) % (i + 1)`, which ranges
    over every value in [0, i]. */
module Shuffle {

  /** Exchange the elements at positions `i` and `j`. */
  function Swap<T>(s: seq<T>, i: nat, j: nat): (r: seq<T>)
    requires i < |s| && j < |s|
    ensures |r| == |s| && r[i] == s[j] && r[j] == s[i]
    ensures forall k :: 0 <= k < |s| && k != i && k != j ==> r[k] == s[k]
    ensures multiset(r) == multiset(s)
  {
    s[i := s[j]][j := s[i]]
  }

  /** The loop of `shuffleArray` from position `i` down to 1. */
  function ShuffleDown<T>(s: seq<T>, i: nat, rand: nat -> nat): (r: seq<T>)
    requires i < |s|
    ensures |r| == |s| && multiset(r) == multiset(s)
    decreases i
  {
    if i == 0 then s
    else ShuffleDown(Swap(s, i, rand(i) % (i + 1)), i - 1, rand)
  }

  /** `shuffleArray`: a permutation of its input. */
  function ShuffleArray<T>(s: seq<T>, rand: nat -> nat): (r: seq<T>)
    ensures |r| == |s| && multiset(r) == multiset(s)
  {
    if |s| <= 1 then s else ShuffleDown(s, |s| - 1, rand)
  }

  /** The shuffle keeps exactly the elements it was given. */
  lemma ShuffleKeepsElements<T>(s: seq<T>, rand: nat -> nat, x: T)
    ensures x in ShuffleArray(s, rand) <==> x in s
  {
    var r := ShuffleArray(s, rand);
    assert x in r <==> x in multiset(r);
    assert x in s <==> x in multiset(s);
  }

  /** Swapping a position with itself changes nothing. */
  lemma SwapSelf<T>(s: seq<T>, i: nat)
    requires i < |s|
    ensures Swap(s, i, i) == s
  {
  }

  /** A step whose draw picks its own position leaves the sequence as it is. */
  lemma ShuffleDownStay<T>(s: seq<T>, i: nat, rand: nat -> nat)
    requires 0 < i < |s| && rand(i) % (i + 1) == i
    ensures ShuffleDown(s, i, rand) == ShuffleDown(s, i - 1, rand)
  {
    SwapSelf(s, i);
  }

  /** When every draw picks the current position the shuffle is the identity:
      every step of the loop may leave the sequence as it is. */
  lemma {:induction false} ShuffleDownIdentity<T>(s: seq<T>, i: nat, rand: nat -> nat)
    requires i < |s|
    requires forall k :: 0 < k <= i ==> rand(k) % (k + 1) == k
    ensures ShuffleDown(s, i, rand) == s
  {
    if i > 0 {
      ShuffleDownStay(s, i, rand);
      ShuffleDownIdentity(s, i - 1, rand);
    }
  }
}
