/** The shape of MtMesh.BuildTriangleStrips with the strip operations left abstract: items are
    fed in order to the last run, and a refused item opens a new run. `add(s, x)` is (accepted,
    new state); a refusal leaves the run as it was. */
module GreedyRuns {
  import opened Wrappers
  import opened SeqFacts

  /** Feeding items one after another to s; None as soon as one is refused. */
  function Grow<S, F>(add: (S, F) -> (bool, S), s: S, xs: seq<F>): Option<S>
  {
    if |xs| == 0 then Some(s)
    else
      match Grow(add, s, xs[..|xs| - 1])
      case None => None
      case Some(t) => if add(t, xs[|xs| - 1]).0 then Some(add(t, xs[|xs| - 1]).1) else None
  }

  /** One step over the runs built so far: extend the last run, or open a new one. */
  function Next<S, F>(add: (S, F) -> (bool, S), empty: S, runs: seq<S>, x: F): seq<S>
  {
    if |runs| == 0 then [add(empty, x).1]
    else if add(runs[|runs| - 1], x).0 then runs[..|runs| - 1] + [add(runs[|runs| - 1], x).1]
    else runs + [add(empty, x).1]
  }

  /** The runs of all items. */
  function Build<S, F>(add: (S, F) -> (bool, S), empty: S, xs: seq<F>): (runs: seq<S>)
    decreases |xs|, 1
    ensures |runs| <= |xs| && (|runs| == 0 <==> |xs| == 0)
  {
    if |xs| == 0 then [] else Extend(add, empty, xs)
  }

  /** The last item fed to the runs of the others. */
  function Extend<S, F>(add: (S, F) -> (bool, S), empty: S, xs: seq<F>): (runs: seq<S>)
    requires |xs| > 0
    decreases |xs|, 0
    ensures 0 < |runs| <= |xs|
  {
    Next(add, empty, Build(add, empty, xs[..|xs| - 1]), xs[|xs| - 1])
  }

  /** The index of the first item of each run, alongside Build. */
  function Starts<S, F>(add: (S, F) -> (bool, S), empty: S, xs: seq<F>): (starts: seq<nat>)
    ensures |starts| == |Build(add, empty, xs)|
  {
    if |xs| == 0 then []
    else
      var prev := Build(add, empty, xs[..|xs| - 1]);
      if |prev| > 0 && add(prev[|prev| - 1], xs[|xs| - 1]).0 then Starts(add, empty, xs[..|xs| - 1])
      else Starts(add, empty, xs[..|xs| - 1]) + [|xs| - 1]
  }

  lemma BuildSnoc<S, F>(add: (S, F) -> (bool, S), empty: S, xs: seq<F>, x: F)
    ensures Build(add, empty, xs + [x]) == Next(add, empty, Build(add, empty, xs), x)
    ensures Starts(add, empty, xs + [x]) ==
      var prev := Build(add, empty, xs);
      if |prev| > 0 && add(prev[|prev| - 1], x).0 then Starts(add, empty, xs)
      else Starts(add, empty, xs) + [|xs|]
  {
    SnocInit(xs, x);
  }

  /** The end (exclusive) of run k. */
  function RunEnd(starts: seq<nat>, count: nat, k: nat): nat
    requires k < |starts|
  {
    if k + 1 < |starts| then starts[k + 1] else count
  }

  /** Stretch k lies within the items, and feeding it to a fresh run gives run k. */
  ghost predicate RunGrows<S, F>(add: (S, F) -> (bool, S), empty: S, xs: seq<F>, runs: seq<S>, starts: seq<nat>, k: nat)
    requires k < |starts| == |runs|
  {
    starts[k] <= RunEnd(starts, |xs|, k) <= |xs|
    && Grow(add, empty, xs[starts[k]..RunEnd(starts, |xs|, k)]) == Some(runs[k])
  }

  /** The runs split the items into consecutive non-empty stretches: the first starts at item
      0, they follow one another in order, feeding stretch k to a fresh run gives run k, and run
      k + 1 was opened only because run k refused its first item. */
  ghost predicate Partitions<S, F>(add: (S, F) -> (bool, S), empty: S, xs: seq<F>, runs: seq<S>, starts: seq<nat>)
  {
    && |starts| == |runs|
    && (|xs| > 0 ==> |starts| > 0 && starts[0] == 0)
    && (forall k :: 0 <= k < |starts| ==> starts[k] < |xs|)
    && (forall i, j :: 0 <= i < j < |starts| ==> starts[i] < starts[j])
    && (forall k :: 0 <= k < |starts| ==> RunGrows(add, empty, xs, runs, starts, k))
    && (forall k :: 0 <= k < |starts| - 1 ==> !add(runs[k], xs[starts[k + 1]]).0)
  }

  lemma GrowOne<S, F>(add: (S, F) -> (bool, S), empty: S, x: F)
    requires add(empty, x).0
    ensures Grow(add, empty, [x]) == Some(add(empty, x).1)
  {
    assert [x][..0] == [];
  }

  /** A stretch that ends before the new item grows the same run as before. */
  lemma RunUnchanged<S, F>(add: (S, F) -> (bool, S), empty: S, xs: seq<F>, x: F, a: nat, b: nat, r: S)
    requires a <= b <= |xs| && Grow(add, empty, xs[a..b]) == Some(r)
    ensures Grow(add, empty, (xs + [x])[a..b]) == Some(r)
  {
    SnocUntouched(xs, x, a, b);
  }

  /** The last stretch extended by an accepted item grows the extended run. */
  lemma RunExtended<S, F>(add: (S, F) -> (bool, S), empty: S, xs: seq<F>, x: F, a: nat, r: S)
    requires a <= |xs| && Grow(add, empty, xs[a..|xs|]) == Some(r) && add(r, x).0
    ensures Grow(add, empty, (xs + [x])[a..|xs| + 1]) == Some(add(r, x).1)
  {
    SnocSlice(xs, x, a);
    var run := xs[a..];
    assert run == xs[a..|xs|];
    assert (run + [x])[..|run|] == run;
  }

  /** Extending the last run by an accepted item keeps the partition. */
  lemma PartitionExtend<S, F>(add: (S, F) -> (bool, S), empty: S, xs: seq<F>, x: F, runs: seq<S>, starts: seq<nat>)
    requires Partitions(add, empty, xs, runs, starts) && |runs| > 0 && add(runs[|runs| - 1], x).0
    ensures Partitions(add, empty, xs + [x], runs[..|runs| - 1] + [add(runs[|runs| - 1], x).1], starts)
  {
    var ys := xs + [x];
    var m := |runs| - 1;
    var t := add(runs[m], x).1;
    var runs' := runs[..m] + [t];
    forall k | 0 <= k < |starts|
      ensures RunGrows(add, empty, ys, runs', starts, k)
    {
      assert RunGrows(add, empty, xs, runs, starts, k);
      if k < m {
        assert RunEnd(starts, |ys|, k) == RunEnd(starts, |xs|, k) == starts[k + 1];
        assert runs'[k] == runs[k];
        RunUnchanged(add, empty, xs, x, starts[k], starts[k + 1], runs[k]);
      } else {
        assert RunEnd(starts, |ys|, k) == |ys| && RunEnd(starts, |xs|, k) == |xs|;
        assert runs'[k] == t;
        RunExtended(add, empty, xs, x, starts[k], runs[k]);
      }
    }
    forall k | 0 <= k < |starts| - 1
      ensures !add(runs'[k], ys[starts[k + 1]]).0
    {
      assert runs'[k] == runs[k] && ys[starts[k + 1]] == xs[starts[k + 1]];
    }
  }

  /** After opening a new run for x, every stretch still grows its run. */
  lemma OpenedRunGrows<S, F>(add: (S, F) -> (bool, S), empty: S, xs: seq<F>, x: F, runs: seq<S>, starts: seq<nat>, k: nat)
    requires Partitions(add, empty, xs, runs, starts) && |runs| > 0 && add(empty, x).0
    requires k <= |starts|
    ensures RunGrows(add, empty, xs + [x], runs + [add(empty, x).1], starts + [|xs|], k)
  {
    var ys := xs + [x];
    var runs' := runs + [add(empty, x).1];
    var starts': seq<nat> := starts + [|xs|];
    var m := |runs| - 1;
    if k <= m {
      assert RunGrows(add, empty, xs, runs, starts, k);
    }
    if k < m {
      assert starts'[k] == starts[k] && runs'[k] == runs[k];
      assert RunEnd(starts', |ys|, k) == RunEnd(starts, |xs|, k) == starts[k + 1];
      RunUnchanged(add, empty, xs, x, starts[k], starts[k + 1], runs[k]);
    } else if k == m {
      assert starts'[k] == starts[k] && runs'[k] == runs[k];
      assert RunEnd(starts', |ys|, k) == |xs| == RunEnd(starts, |xs|, k);
      RunUnchanged(add, empty, xs, x, starts[k], |xs|, runs[k]);
    } else {
      assert starts'[k] == |xs| && runs'[k] == add(empty, x).1 && RunEnd(starts', |ys|, k) == |ys|;
      GrowOne(add, empty, x);
      assert ys[|xs|..|ys|] == [x];
    }
  }

  /** Opening a new run for a refused item keeps the partition. */
  lemma PartitionOpen<S, F>(add: (S, F) -> (bool, S), empty: S, xs: seq<F>, x: F, runs: seq<S>, starts: seq<nat>)
    requires Partitions(add, empty, xs, runs, starts) && |runs| > 0 && !add(runs[|runs| - 1], x).0
    requires add(empty, x).0
    ensures Partitions(add, empty, xs + [x], runs + [add(empty, x).1], starts + [|xs|])
  {
    var ys := xs + [x];
    var m := |runs| - 1;
    var runs' := runs + [add(empty, x).1];
    var starts': seq<nat> := starts + [|xs|];
    forall k | 0 <= k < |starts'|
      ensures RunGrows(add, empty, ys, runs', starts', k)
    {
      OpenedRunGrows(add, empty, xs, x, runs, starts, k);
    }
    forall k | 0 <= k < |starts'| - 1
      ensures !add(runs'[k], ys[starts'[k + 1]]).0
    {
      OpenedRunRefused(add, empty, xs, x, runs, starts, k);
    }
  }

  /** After opening a new run for x, each run but the last refused the first item of the next. */
  lemma OpenedRunRefused<S, F>(add: (S, F) -> (bool, S), empty: S, xs: seq<F>, x: F, runs: seq<S>, starts: seq<nat>, k: nat)
    requires Partitions(add, empty, xs, runs, starts) && |runs| > 0 && !add(runs[|runs| - 1], x).0
    requires k < |starts|
    ensures var ys, runs', starts' := xs + [x], runs + [add(empty, x).1], starts + [|xs|];
      !add(runs'[k], ys[starts'[k + 1]]).0
  {
    var ys := xs + [x];
    var runs' := runs + [add(empty, x).1];
    var starts': seq<nat> := starts + [|xs|];
    assert runs'[k] == runs[k];
    if k < |runs| - 1 {
      assert starts'[k + 1] == starts[k + 1] && ys[starts[k + 1]] == xs[starts[k + 1]];
    } else {
      assert starts'[k + 1] == |xs| && ys[|xs|] == x;
    }
  }

  /** When a fresh run accepts every item, Build is a greedy partition of the items into
      consecutive runs. */
  lemma {:induction false} GreedyPartition<S, F>(add: (S, F) -> (bool, S), empty: S, xs: seq<F>)
    requires forall i :: 0 <= i < |xs| ==> add(empty, xs[i]).0
    ensures Partitions(add, empty, xs, Build(add, empty, xs), Starts(add, empty, xs))
  {
    if |xs| > 0 {
      var init := xs[..|xs| - 1];
      var x := xs[|xs| - 1];
      assert xs == init + [x];
      assert forall i :: 0 <= i < |init| ==> init[i] == xs[i];
      GreedyPartition(add, empty, init);
      BuildSnoc(add, empty, init, x);
      var prev, pstarts := Build(add, empty, init), Starts(add, empty, init);
      if |prev| == 0 {
        assert Build(add, empty, xs) == [add(empty, x).1] && Starts(add, empty, xs) == [0];
        GrowOne(add, empty, x);
        assert xs[0..|xs|] == [x];
      } else if add(prev[|prev| - 1], x).0 {
        PartitionExtend(add, empty, init, x, prev, pstarts);
      } else {
        PartitionOpen(add, empty, init, x, prev, pstarts);
      }
    }
  }
}
