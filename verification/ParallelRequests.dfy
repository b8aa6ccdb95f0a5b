/** How many requests a parallel run sends, whatever the interleaving. */
module ParallelRequests {
  import opened Model
  import opened Sequences
  import opened Evidence
  import opened Layering
  import opened ParallelRun
  import opened ParallelControl
  import opened ParallelData

  /** The requests that the evidence of a lock records. */
  ghost function RequestsFor(c: Config, id: string): int {
    FetchId(c, id).requestCount
  }

  ghost function Recorded(c: Config, ids: seq<string>): int {
    if ids == [] then 0 else Recorded(c, ids[..|ids| - 1]) + RequestsFor(c, ids[|ids| - 1])
  }

  lemma {:induction false} RecordedAppend(c: Config, s: seq<string>, t: seq<string>)
    ensures Recorded(c, s + t) == Recorded(c, s) + Recorded(c, t)
  {
    if t == [] {
      assert s + t == s;
    } else {
      assert (s + t)[..|s + t| - 1] == s + t[..|t| - 1];
      RecordedAppend(c, s, t[..|t| - 1]);
    }
  }

  lemma {:induction false} RecordedTotal(c: Config, ids: seq<string>, f: string -> int)
    requires forall id :: f(id) == RequestsFor(c, id)
    ensures Recorded(c, ids) == Total(ids, f)
  {
    if ids != [] { RecordedTotal(c, ids[..|ids| - 1], f); }
  }

  lemma RecordedPermutes(c: Config, s: seq<string>, t: seq<string>)
    requires multiset(s) == multiset(t)
    ensures Recorded(c, s) == Recorded(c, t)
  {
    var f := id => RequestsFor(c, id);
    TotalPermutes(s, t, f);
    RecordedTotal(c, s, f);
    RecordedTotal(c, t, f);
  }

  /** Slot by slot no more requests than recorded for the slot's ID. */
  lemma {:induction false} RecordedBound(c: Config, ids: seq<string>, evidence: seq<LockEvidence>)
    requires |evidence| == |ids|
    requires forall j :: 0 <= j < |ids| ==> evidence[j].requestCount <= RequestsFor(c, ids[j])
    ensures Total(evidence, RequestsOf) <= Recorded(c, ids)
    ensures Total(evidence, RequestsOf) == Recorded(c, ids) <==>
            forall j :: 0 <= j < |ids| ==> evidence[j].requestCount == RequestsFor(c, ids[j])
  {
    if ids != [] {
      var n := |ids| - 1;
      RecordedBound(c, ids[..n], evidence[..n]);
      assert forall j :: 0 <= j < n ==> evidence[..n][j] == evidence[j] && ids[..n][j] == ids[j];
    }
  }

  /** The requests that a worker at `pc` has sent. */
  ghost function Sent(c: Config, id: string, pc: Pc): int {
    match pc
    case Unspawned => 0
    case Acquiring => 0
    case Entering => 0
    case Beginning(a) => a - 1
    case Loading(a, _) => a - 1
    case Swapping(a, _, _) => a - 1
    case InFlight(a) => a - 1
    case Ending(a) => a
    case Deciding(a) => a
    case BackingOff(a) => a
    case Writing(value) => value.requestCount
    case Releasing => RequestsFor(c, id)
    case Leaving => RequestsFor(c, id)
    case Finished => RequestsFor(c, id)
  }

  ghost function SentBy(c: Config, ids: seq<string>, threads: seq<Pc>): int
    requires |ids| == |threads|
  {
    if ids == [] then 0
    else
      var n := |ids| - 1;
      SentBy(c, ids[..n], threads[..n]) + Sent(c, ids[n], threads[n])
  }

  lemma {:induction false} SentMove(c: Config, ids: seq<string>, threads: seq<Pc>, t: nat, pc: Pc)
    requires |ids| == |threads| && t < |ids|
    ensures SentBy(c, ids, threads[t := pc]) ==
            SentBy(c, ids, threads) - Sent(c, ids[t], threads[t]) + Sent(c, ids[t], pc)
  {
    var n := |ids| - 1;
    if t == n {
      assert threads[t := pc][..n] == threads[..n];
    } else {
      assert threads[t := pc][..n] == threads[..n][t := pc];
      SentMove(c, ids[..n], threads[..n], t, pc);
    }
  }

  lemma {:induction false} SentAtEnds(c: Config, ids: seq<string>, threads: seq<Pc>)
    requires |ids| == |threads|
    ensures (forall i :: 0 <= i < |threads| ==> threads[i].Finished?) ==> SentBy(c, ids, threads) == Recorded(c, ids)
    ensures (forall i :: 0 <= i < |threads| ==> threads[i].Unspawned?) ==> SentBy(c, ids, threads) == 0
  {
    if ids != [] { SentAtEnds(c, ids[..|ids| - 1], threads[..|threads| - 1]); }
  }

  /** All requests of the finished waves, and what the current workers have sent. */
  ghost function Due(c: Config, s: State): int
    requires Typed(c, s)
  {
    Recorded(c, Concat(c.waves[..s.wave])) + SentBy(c, c.waves[s.wave], s.threads)
  }

  /** One step of a worker sends one request from `InFlight`, and none from elsewhere. */
  lemma SentStep(c: Config, s: State, t: nat)
    requires Data(c, s) && Enabled(c, s, Worker(t))
    ensures Sent(c, IdOf(c, s, t), NextPc(c, s, t)) ==
            Sent(c, IdOf(c, s, t), s.threads[t]) + if s.threads[t].InFlight? then 1 else 0
  {
    assert OnCourse(c, c.waves[s.wave][t], s.threads[t]);
    assert Consistent(c, s.peak, IdOf(c, s, t), s.threads[t]);
  }

  lemma IssuedWorker(c: Config, s: State, t: nat)
    requires Data(c, s) && Enabled(c, s, Worker(t)) && s.issued == Due(c, s)
    ensures Typed(c, StepWorker(c, s, t)) && StepWorker(c, s, t).issued == Due(c, StepWorker(c, s, t))
  {
    MoveKeepsShape(c, s, t);
    SentStep(c, s, t);
    SentMove(c, c.waves[s.wave], s.threads, t, NextPc(c, s, t));
  }

  lemma WaveSent(c: Config, w: nat, threads: seq<Pc>)
    requires w + 1 < |c.waves| && |threads| == |c.waves[w]| && forall i :: 0 <= i < |threads| ==> threads[i].Finished?
    ensures Recorded(c, Concat(c.waves[..w + 1])) + SentBy(c, c.waves[w + 1], Fresh(|c.waves[w + 1]|)) ==
            Recorded(c, Concat(c.waves[..w])) + SentBy(c, c.waves[w], threads)
  {
    SentAtEnds(c, c.waves[w], threads);
    SentAtEnds(c, c.waves[w + 1], Fresh(|c.waves[w + 1]|));
    ConcatNext(c.waves, w);
    RecordedAppend(c, Concat(c.waves[..w]), c.waves[w]);
  }

  lemma IssuedMain(c: Config, s: State)
    requires Data(c, s) && Enabled(c, s, Main) && s.issued == Due(c, s)
    ensures Typed(c, StepMain(c, s)) && StepMain(c, s).issued == Due(c, StepMain(c, s))
  {
    match s.main
    case Spawning(_) =>
    case Launching(n) => SentMove(c, c.waves[s.wave], s.threads, n, Acquiring);
    case Waiting =>
      if s.wave + 1 < |c.waves| {
        AllFinished(s);
        WaveSent(c, s.wave, s.threads);
      }
  }

  /** In every reachable state, the requests sent are those of the finished waves and what
      the current workers' positions account for. */
  lemma {:induction false} IssuedHolds(c: Config, trace: seq<State>)
    requires Execution(c, trace)
    ensures Typed(c, Last(trace)) && Last(trace).issued == Due(c, Last(trace))
  {
    if |trace| == 1 {
      SentAtEnds(c, c.waves[0], Fresh(|c.waves[0]|));
    } else {
      var front := trace[..|trace| - 1];
      IssuedHolds(c, front);
      DataHolds(c, front);
      var s, a := LastStep(c, trace);
      match a
      case Main => IssuedMain(c, s);
      case Worker(t) => IssuedWorker(c, s, t);
    }
  }

  /** Every complete interleaving sends, for each lock as often as it is listed, exactly the
      requests that the lock's evidence records. */
  lemma RequestsSent(c: Config, trace: seq<State>)
    requires Complete(c, trace)
    ensures Last(trace).issued == Recorded(c, Concat(c.waves))
  {
    IssuedHolds(c, trace);
    ControlHolds(c, trace);
    var last := |c.waves| - 1;
    SentAtEnds(c, c.waves[last], Last(trace).threads);
    RecordedAppend(c, Concat(c.waves[..last]), c.waves[last]);
  }
}
