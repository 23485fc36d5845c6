/** What the scan pipeline hands to the consumer loop: the link between ScanPipeline's interleavings
    and the deliveries that Reindex.ScanUserTree is run on. */
module ScanDelivery {
  import opened Reindex
  import opened ScanPipeline

  /** At any moment of any interleaving the consumed items are distinct entries of the tree, and when
      the scan succeeds they are all of them. */
  lemma PipelineDelivers(run: seq<State<Item>>, all: seq<Item>, workers: nat, cap: nat, n: nat,
                         user: int, tree: Tree, scan: string, names: Naming)
    requires workers > 0 && Run(run, all, workers, cap) && n < |run|
    requires DistinctPaths(all) && FromTree(all, user, tree, scan, names) && PathsOf(all) == tree.Keys
    ensures DistinctPaths(run[n].consumed) && FromTree(run[n].consumed, user, tree, scan, names)
    ensures run[n].consumer == Returned(true) ==> PathsOf(run[n].consumed) == tree.Keys
  {
    var c := run[n].consumed;
    RunInv(run, all, workers, cap, n);
    assert NoDuplicates(all);
    forall x: Item ensures Count(c, x) <= Count(all, x) <= 1 {
      ConsumedOf(run[n], all, cap, x);
      AtMostOnce(all, x);
    }
    OnceIsDistinct(c);
    forall i | 0 <= i < |c| ensures c[i] in all { InByCount(c, all, i); }
    forall i, j | 0 <= i < j < |c| ensures c[i].entry.path != c[j].entry.path {
      assert c[i] in all && c[j] in all && c[i] != c[j];
    }
    if run[n].consumer == Returned(true) {
      SuccessConsumesAll(run, all, workers, cap, n);
      forall p ensures p in PathsOf(c) <==> p in PathsOf(all) {
        if p in PathsOf(all) {
          var i :| 0 <= i < |all| && all[i].entry.path == p;
          assert all[i] in c;
        }
      }
    }
  }

  /** A scan at rest that met no walk error, no failed flush and no cancel while receiving has returned
      success and has consumed the whole tree; any of these makes it return a failure. */
  lemma QuietScanDeliversAll(run: seq<State<Item>>, acts: seq<Action>, all: seq<Item>, workers: nat, cap: nat,
                             user: int, tree: Tree, scan: string, names: Naming)
    requires workers > 0 && cap > 0 && Trace(run, acts, all, workers, cap) && Stuck(run[|acts|], cap)
    requires DistinctPaths(all) && FromTree(all, user, tree, scan, names) && PathsOf(all) == tree.Keys
    ensures if exists i :: 0 <= i < |acts| && Spoils(run[i], acts[i]) then run[|acts|].consumer == Returned(false)
            else run[|acts|].consumer == Returned(true) && PathsOf(run[|acts|].consumed) == tree.Keys
  {
    SucceedsIff(run, acts, all, workers, cap);
    TraceIsRun(run, acts, all, workers, cap);
    PipelineDelivers(run, all, workers, cap, |acts|, user, tree, scan, names);
  }

  /** Nothing is consumed that was not walked. */
  lemma ConsumedOf<T(!new)>(s: State<T>, all: seq<T>, cap: nat, x: T)
    requires Inv(s, all, cap)
    ensures Count(s.consumed, x) <= Count(all, x)
  {
    assert ConservedAt(s, x);
    assert all == s.sent + all[|s.sent|..];
    CountConcat(s.sent, all[|s.sent|..], x);
  }

  lemma InByCount<T(!new)>(c: seq<T>, all: seq<T>, i: nat)
    requires i < |c| && Count(c, c[i]) <= Count(all, c[i])
    ensures c[i] in all
  {
    CountIsMultiset(c, c[i]);
    CountIsMultiset(all, c[i]);
    assert c[i] in multiset(c);
  }
}
