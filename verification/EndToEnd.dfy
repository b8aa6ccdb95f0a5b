/** From validated input to the verdict on the pair. */
module EndToEnd {
  import opened Model
  import opened Sequences
  import opened Fetch
  import opened Evidence
  import opened Comparison
  import opened Kahn
  import opened ParallelRun
  import opened Runs
  import opened Validation

  /** A validated source runs in both modes exactly when its dependencies sort before their
      dependants. Then, whatever the server and the interleaving, the pair is refuted exactly
      when the order repeats an ID; otherwise both modes report every declared lock once, in
      canonical form, with the same root, and wall time alone decides. */
  lemma ValidatedPair(source: Source, oracle: Oracle, enc: Encoding, trace: seq<State>, wallB: int, wallC: int)
    requires Accepted(source) && ValidDag(source)
    ensures Starts(source, Sequential, 1) && Starts(source, BoundedParallel, source.concurrencyBound) <==>
            DependenciesSortFirst(LockMap(source.locks), source.canonicalOrder)
    ensures DependenciesSortFirst(LockMap(source.locks), source.canonicalOrder) <==>
            Schedulable(source, source.concurrencyBound)
    ensures Schedulable(source, source.concurrencyBound) &&
            Complete(ConfigOf(source, oracle, source.concurrencyBound), trace) ==>
              var b, c := SequentialResult(source, oracle, enc, wallB), ParallelResult(enc, trace, wallC);
              && PairVerdict(enc, b, c) ==
                 (if !Distinct(source.canonicalOrder) then REFUTED else if wallC < wallB then CLOSED else UNKNOWN)
              && (Distinct(source.canonicalOrder) ==>
                    && b.evidence == c.evidence == StableSort(c.evidence)
                    && multiset(LockIds(c.evidence)) == multiset(Ids(source.locks))
                    && b.semanticRoot == c.semanticRoot)
  {
    LayeringOfSorted(LockMap(source.locks), source.canonicalOrder);
    RunPairStarts(source);
    if Schedulable(source, source.concurrencyBound) &&
      Complete(ConfigOf(source, oracle, source.concurrencyBound), trace) {
      RunPairVerdict(source, oracle, source.concurrencyBound, enc, trace, wallB, wallC);
      if Distinct(source.canonicalOrder) {
        ParallelRefinesSequential(source, oracle, source.concurrencyBound, trace);
        SortedRunIsCanonical(source, oracle);
        ExactlyOnce(source);
      }
    }
  }
}
