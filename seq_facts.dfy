/** Small facts about slices of a sequence extended at the end, stated once so that the
    proofs about strips need not rediscover them. */
module SeqFacts {

  lemma SnocSlice<T>(xs: seq<T>, x: T, a: nat)
    requires a <= |xs|
    ensures (xs + [x])[a..|xs| + 1] == xs[a..] + [x]
  {
  }

  lemma SnocUntouched<T>(xs: seq<T>, x: T, a: nat, b: nat)
    requires a <= b <= |xs|
    ensures (xs + [x])[a..b] == xs[a..b]
  {
  }

  lemma SnocInit<T>(xs: seq<T>, x: T)
    ensures (xs + [x])[..|xs|] == xs
  {
  }

  lemma PrefixSnoc<T>(xs: seq<T>, i: nat)
    requires i < |xs|
    ensures xs[..i + 1] == xs[..i] + [xs[i]] && xs[..i + 1][..i] == xs[..i]
  {
  }

  lemma SplitLast<T>(xs: seq<T>)
    requires |xs| > 0
    ensures xs == xs[..|xs| - 1] + [xs[|xs| - 1]]
  {
  }
}
