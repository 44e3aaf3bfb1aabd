/** The bounded-window dispatcher of the upload pass, as a machine whose only input
    is the order and outcome of completions. A schedule is any list of completions in
    which each record was in flight when it completed; every interruption point of
    a wave is a prefix of a schedule. */
module Waves {
  import opened Basics
  import opened Results
  import opened Store

  datatype Config = Config(concurrency: nat, threshold: nat, retryCap: nat, maxLineBytes: nat) {
    predicate Valid() {
      concurrency >= 1 && threshold >= 1 && retryCap >= 1
    }
  }

  datatype Completion = Completion(id: nat, result: UploadResult)

  datatype Wave = Wave(
    undispatched: seq<nat>, inFlight: set<nat>, streak: nat, aborted: bool, expired: seq<nat>)

  function Elems(s: seq<nat>): set<nat> {
    set x | x in s
  }

  function Ids(log: seq<Completion>): (s: seq<nat>)
    ensures |s| == |log| && forall i :: 0 <= i < |s| ==> s[i] == log[i].id
  {
    seq(|log|, i requires 0 <= i < |log| => log[i].id)
  }

  // --- the machine ---------------------------------------------------------------------

  /** Fill the window with the first records. */
  function Start(cfg: Config, records: seq<nat>, streak: nat): Wave {
    var k := Min(cfg.concurrency, |records|);
    Wave(records[k..], Elems(records[..k]), streak, false, [])
  }

  /** Consecutive network-like errors: a local reject is neutral, any other answer
      from the bureau starts over. */
  function CountStreak(streak: nat, r: UploadResult): nat {
    if r.isNetworkError then streak + 1 else if r.isLocalReject then streak else 0
  }

  /** Collected for the one resend instead of being tallied. */
  predicate Resent(r: UploadResult, final: bool) {
    r.sessionExpired && !final
  }

  /** One completion: pop it, count it, maybe latch the abort, maybe refill. */
  function Complete(cfg: Config, w: Wave, x: Completion, final: bool): Wave {
    var streak := CountStreak(w.streak, x.result);
    var aborted := w.aborted || (x.result.isNetworkError && streak >= cfg.threshold);
    var expired := if Resent(x.result, final) then w.expired + [x.id] else w.expired;
    var left := w.inFlight - {x.id};
    if aborted || w.undispatched == [] then
      Wave(w.undispatched, left, streak, aborted, expired)
    else
      Wave(w.undispatched[1..], left + {w.undispatched[0]}, streak, aborted, expired)
  }

  function Replay(cfg: Config, w: Wave, log: seq<Completion>, final: bool): Wave {
    if log == [] then w
    else Complete(cfg, Replay(cfg, w, log[..|log| - 1], final), log[|log| - 1], final)
  }

  /** A schedule: each completion was in flight, with a result a send can have. */
  predicate Possible(cfg: Config, w: Wave, log: seq<Completion>, final: bool) {
    log == []
    || (var before, x := log[..|log| - 1], log[|log| - 1];
        && Possible(cfg, w, before, final)
        && x.id in Replay(cfg, w, before, final).inFlight
        && WellFormed(x.result))
  }

  lemma ReplayOneMore(cfg: Config, w: Wave, log: seq<Completion>, x: Completion, final: bool)
    ensures Replay(cfg, w, log + [x], final) == Complete(cfg, Replay(cfg, w, log, final), x, final)
    ensures Possible(cfg, w, log + [x], final) <==>
            && Possible(cfg, w, log, final)
            && x.id in Replay(cfg, w, log, final).inFlight
            && WellFormed(x.result)
  {
    assert (log + [x])[..|log|] == log;
  }

  // --- every record is in exactly one place ----------------------------------------------------

  lemma {:induction false} SizeOfElems(s: seq<nat>)
    requires Distinct(s)
    ensures |Elems(s)| == |s|
  {
    if s != [] {
      var n := |s| - 1;
      SizeOfElems(s[..n]);
      assert s == s[..n] + [s[n]];
      assert Elems(s) == Elems(s[..n]) + {s[n]};
    }
  }

  /** How many records have been handed to a worker. */
  function Dispatched(records: seq<nat>, w: Wave): int {
    |records| - |w.undispatched|
  }

  /** Undispatched, in flight and committed records split the wave between them, in
      dispatch order; the window is never over-full, and full while there is work. */
  ghost predicate Partitioned(cfg: Config, records: seq<nat>, w: Wave, log: seq<Completion>) {
    && 0 <= Dispatched(records, w) <= |records|
    && w.undispatched == records[Dispatched(records, w)..]
    && Distinct(Ids(log))
    && w.inFlight !! Elems(Ids(log))
    && w.inFlight + Elems(Ids(log)) == Elems(records[..Dispatched(records, w)])
    && |w.inFlight| + |log| == Dispatched(records, w)
    && |w.inFlight| <= cfg.concurrency
    && (!w.aborted && w.undispatched != [] ==> |w.inFlight| == cfg.concurrency)
  }

  lemma StartIsPartitioned(cfg: Config, records: seq<nat>, streak: nat)
    requires Distinct(records)
    ensures Partitioned(cfg, records, Start(cfg, records, streak), [])
  {
    var k := Min(cfg.concurrency, |records|);
    SizeOfElems(records[..k]);
    assert Ids([]) == [];
  }

  lemma IdsOneMore(log: seq<Completion>, x: Completion)
    ensures Ids(log + [x]) == Ids(log) + [x.id]
    ensures Elems(Ids(log + [x])) == Elems(Ids(log)) + {x.id}
  {
  }

  /** Handing out the next record moves it from the queue into the window. */
  lemma NextIsFresh(records: seq<nat>, d: nat)
    requires Distinct(records) && d < |records|
    ensures records[d..][0] == records[d] && records[d..][1..] == records[d + 1..]
    ensures records[d] !in Elems(records[..d])
    ensures Elems(records[..d + 1]) == Elems(records[..d]) + {records[d]}
  {
    assert records[..d + 1] == records[..d] + [records[d]];
  }

  lemma CompleteKeepsPartition(cfg: Config, records: seq<nat>, w: Wave, log: seq<Completion>,
                               x: Completion, final: bool)
    requires Distinct(records) && Partitioned(cfg, records, w, log) && x.id in w.inFlight
    ensures Partitioned(cfg, records, Complete(cfg, w, x, final), log + [x])
  {
    hide Elems;
    var w' := Complete(cfg, w, x, final);
    var d := Dispatched(records, w);
    IdsOneMore(log, x);
    assert x.id !in Ids(log) by { MemberOfElems(Ids(log), x.id); }
    if w'.aborted || w.undispatched == [] {
      assert w'.undispatched == w.undispatched && w'.inFlight == w.inFlight - {x.id};
    } else {
      NextIsFresh(records, d);
      assert w'.inFlight == w.inFlight - {x.id} + {records[d]};
      assert records[d] !in w.inFlight + Elems(Ids(log));
    }
  }

  lemma PartitionBounds(cfg: Config, records: seq<nat>, w: Wave, log: seq<Completion>)
    requires Partitioned(cfg, records, w, log)
    ensures |w.undispatched| <= |records| && |w.inFlight| <= cfg.concurrency
  {
  }

  lemma MemberOfElems(s: seq<nat>, x: nat)
    ensures x in Elems(s) <==> x in s
  {
  }

  /** The window and partition invariant, after any completions in any order. */
  lemma {:induction false} WaveIsPartitioned(cfg: Config, records: seq<nat>, streak: nat,
                                             log: seq<Completion>, final: bool)
    requires Distinct(records) && Possible(cfg, Start(cfg, records, streak), log, final)
    ensures Partitioned(cfg, records, Replay(cfg, Start(cfg, records, streak), log, final), log)
  {
    hide Partitioned, Complete, Start;
    if log == [] {
      StartIsPartitioned(cfg, records, streak);
    } else {
      var before, x := log[..|log| - 1], log[|log| - 1];
      WaveIsPartitioned(cfg, records, streak, before, final);
      CompleteKeepsPartition(cfg, records, Replay(cfg, Start(cfg, records, streak), before, final), before, x, final);
      assert before + [x] == log;
    }
  }

  /** A wave that was not aborted ends with every record committed exactly once; an
      aborted one ends with exactly a suffix of the records never dispatched. */
  lemma FinishedWave(cfg: Config, records: seq<nat>, streak: nat, log: seq<Completion>, final: bool)
    requires cfg.Valid() && Distinct(records)
    requires Possible(cfg, Start(cfg, records, streak), log, final)
    ensures var w := Replay(cfg, Start(cfg, records, streak), log, final);
            w.inFlight == {} ==>
              && |log| <= |records|
              && Distinct(Ids(log))
              && Elems(Ids(log)) == Elems(records[..|log|])
              && w.undispatched == records[|log|..]
              && (!w.aborted ==> |log| == |records| && Elems(Ids(log)) == Elems(records))
  {
    WaveIsPartitioned(cfg, records, streak, log, final);
    assert records[..|records|] == records;
  }

  /** No schedule is longer than the wave, and one that has not emptied the window can
      always go on: the loop ends, and it ends only when the window is empty. */
  lemma WaveTerminates(cfg: Config, records: seq<nat>, streak: nat, log: seq<Completion>, final: bool, r: UploadResult)
    requires cfg.Valid() && Distinct(records) && WellFormed(r)
    requires Possible(cfg, Start(cfg, records, streak), log, final)
    ensures |log| <= |records|
    ensures var w := Replay(cfg, Start(cfg, records, streak), log, final);
            w.inFlight != {} <==>
            exists id :: Possible(cfg, Start(cfg, records, streak), log + [Completion(id, r)], final)
  {
    WaveIsPartitioned(cfg, records, streak, log, final);
    var w := Replay(cfg, Start(cfg, records, streak), log, final);
    forall id
      ensures Possible(cfg, Start(cfg, records, streak), log + [Completion(id, r)], final) <==> id in w.inFlight
    {
      ReplayOneMore(cfg, Start(cfg, records, streak), log, Completion(id, r), final);
    }
    if w.inFlight != {} {
      var id :| id in w.inFlight;
      assert Possible(cfg, Start(cfg, records, streak), log + [Completion(id, r)], final);
    }
  }

  // --- the stale-session list -------------------------------------------------------------------

  /** Ids of the completions collected for the resend, in completion order. */
  function Stale(log: seq<Completion>): seq<nat> {
    if log == [] then []
    else
      var x := log[|log| - 1];
      Stale(log[..|log| - 1]) + (if x.result.sessionExpired then [x.id] else [])
  }

  lemma StaleOneMore(log: seq<Completion>, x: Completion)
    ensures Stale(log + [x]) == Stale(log) + (if x.result.sessionExpired then [x.id] else [])
  {
    assert (log + [x])[..|log|] == log;
  }

  lemma {:induction false} StaleMember(log: seq<Completion>, id: nat)
    ensures id in Stale(log) <==> exists i :: 0 <= i < |log| && log[i].id == id && log[i].result.sessionExpired
  {
    if log != [] {
      var n := |log| - 1;
      StaleMember(log[..n], id);
      if i :| 0 <= i < n && log[i].id == id && log[i].result.sessionExpired {
        assert log[..n][i] == log[i];
      }
    }
  }

  lemma {:induction false} StaleIds(log: seq<Completion>)
    ensures forall id :: id in Stale(log) <==>
            exists i :: 0 <= i < |log| && log[i].id == id && log[i].result.sessionExpired
    ensures Elems(Stale(log)) <= Elems(Ids(log))
    ensures Distinct(Ids(log)) ==> Distinct(Stale(log))
  {
    forall id {
      StaleMember(log, id);
    }
    forall id | id in Stale(log) ensures id in Ids(log) {
      var i :| 0 <= i < |log| && log[i].id == id;
      assert Ids(log)[i] == id;
    }
    if Distinct(Ids(log)) {
      StaleIsDistinct(log);
    }
  }

  lemma {:induction false} StaleIsDistinct(log: seq<Completion>)
    requires Distinct(Ids(log))
    ensures Distinct(Stale(log)) && forall id :: id in Stale(log) ==> id in Ids(log)
  {
    if log != [] {
      var n := |log| - 1;
      assert Ids(log) == Ids(log[..n]) + [log[n].id];
      forall i | 0 <= i < n ensures Ids(log[..n])[i] != log[n].id {
        assert Ids(log)[i] != Ids(log)[n];
      }
      forall i, j | 0 <= i < j < n ensures Ids(log[..n])[i] != Ids(log[..n])[j] {
        assert Ids(log)[i] != Ids(log)[j];
      }
      StaleIsDistinct(log[..n]);
      assert log[n].id !in Ids(log[..n]);
    }
  }

  lemma {:induction false} ExpiredIsStale(cfg: Config, w: Wave, log: seq<Completion>, final: bool)
    requires w.expired == []
    ensures Replay(cfg, w, log, final).expired == if final then [] else Stale(log)
  {
    if log != [] {
      ExpiredIsStale(cfg, w, log[..|log| - 1], final);
    }
  }

  // --- the streak, declaratively ------------------------------------------------------------------

  /** Whether each completion was a network-like error, local rejects left out. */
  function Evidence(log: seq<Completion>): seq<bool> {
    if log == [] then []
    else
      var x := log[|log| - 1];
      Evidence(log[..|log| - 1]) + (if x.result.isLocalReject then [] else [x.result.isNetworkError])
  }

  lemma {:induction false} EvidenceAppends(a: seq<Completion>, b: seq<Completion>)
    ensures Evidence(a + b) == Evidence(a) + Evidence(b)
  {
    if b == [] {
      assert a + b == a;
    } else {
      var n := |b| - 1;
      EvidenceAppends(a, b[..n]);
      assert (a + b)[..|a + b| - 1] == a + b[..n];
    }
  }

  /** `n` errors in a row, starting at `i`. */
  predicate RunAt(e: seq<bool>, i: nat, n: nat) {
    i + n <= |e| && forall k :: i <= k < i + n ==> e[k]
  }

  ghost predicate HasRun(e: seq<bool>, n: nat) {
    exists i: nat :: RunAt(e, i, n)
  }

  /** Length of the run of errors at the end. */
  function TrailingRun(e: seq<bool>): (n: nat)
    ensures n <= |e|
    ensures forall k :: |e| - n <= k < |e| ==> e[k]
    ensures n < |e| ==> !e[|e| - n - 1]
  {
    if e == [] || !e[|e| - 1] then 0 else TrailingRun(e[..|e| - 1]) + 1
  }

  /** One more piece of evidence completes a run exactly when the trailing run reaches
      the threshold. */
  lemma RunGrows(e: seq<bool>, b: bool, n: nat)
    requires n >= 1
    ensures HasRun(e + [b], n) <==> HasRun(e, n) || (b && TrailingRun(e + [b]) >= n)
  {
    var e' := e + [b];
    if HasRun(e, n) {
      var i: nat :| RunAt(e, i, n);
      assert RunAt(e', i, n);
    } else if b && TrailingRun(e') >= n {
      assert RunAt(e', |e'| - n, n);
    } else {
      var t := TrailingRun(e');
      forall i: nat ensures !RunAt(e', i, n) {
        if i + n <= |e| {
          assert !RunAt(e, i, n);
          var k :| i <= k < i + n && !e[k];
          assert !e'[k];
        } else if i + n == |e'| {
          var k := if b then |e'| - t - 1 else |e|;
          assert i <= k < i + n && !e'[k];
        }
      }
    }
  }

  /** The counter is the trailing run of the evidence, the latch whether a long enough
      run was ever seen. */
  ghost predicate Tracks(cfg: Config, w: Wave, seen: seq<bool>) {
    w.streak == TrailingRun(seen) && (w.aborted <==> HasRun(seen, cfg.threshold))
  }

  lemma CompleteKeepsTracking(cfg: Config, w: Wave, seen: seq<bool>, x: Completion, final: bool)
    requires cfg.threshold >= 1 && WellFormed(x.result) && Tracks(cfg, w, seen)
    ensures Tracks(cfg, Complete(cfg, w, x, final),
                   if x.result.isLocalReject then seen else seen + [x.result.isNetworkError])
  {
    if !x.result.isLocalReject {
      assert (seen + [x.result.isNetworkError])[..|seen|] == seen;
      RunGrows(seen, x.result.isNetworkError, cfg.threshold);
    }
  }

  /** Tracking goes on through a wave that starts where earlier evidence stopped. */
  lemma {:induction false} StreakRefinesRuns(cfg: Config, w: Wave, prior: seq<bool>, log: seq<Completion>, final: bool)
    requires cfg.threshold >= 1 && Tracks(cfg, w, prior)
    requires forall i :: 0 <= i < |log| ==> WellFormed(log[i].result)
    ensures Tracks(cfg, Replay(cfg, w, log, final), prior + Evidence(log))
  {
    hide Tracks;
    if log == [] {
      assert prior + Evidence(log) == prior;
    } else {
      var before, x := log[..|log| - 1], log[|log| - 1];
      StreakRefinesRuns(cfg, w, prior, before, final);
      CompleteKeepsTracking(cfg, Replay(cfg, w, before, final), prior + Evidence(before), x, final);
      assert prior + Evidence(log) ==
             if x.result.isLocalReject then prior + Evidence(before)
             else prior + Evidence(before) + [x.result.isNetworkError];
    }
  }

  lemma {:induction false} PossibleMeansWellFormed(cfg: Config, w: Wave, log: seq<Completion>, final: bool)
    requires Possible(cfg, w, log, final)
    ensures forall i :: 0 <= i < |log| ==> WellFormed(log[i].result)
  {
    if log != [] {
      PossibleMeansWellFormed(cfg, w, log[..|log| - 1], final);
    }
  }

  /** The latch never clears and the refill stops with it. */
  lemma {:induction false} LatchIsPermanent(cfg: Config, w: Wave, log: seq<Completion>, final: bool)
    requires w.aborted
    ensures var w' := Replay(cfg, w, log, final);
            w'.aborted && w'.undispatched == w.undispatched && w'.inFlight <= w.inFlight
  {
    if log != [] {
      LatchIsPermanent(cfg, w, log[..|log| - 1], final);
    }
  }

  // --- what an aborted wave leaves ------------------------------------------------------------------

  /** The first `k` completions set the latch. */
  predicate LatchedBy(cfg: Config, w: Wave, log: seq<Completion>, k: nat, final: bool)
    requires k <= |log|
  {
    Replay(cfg, w, log[..k], final).aborted
  }

  /** The latch is set by the first `k` completions and not before. */
  ghost predicate FirstLatch(cfg: Config, w: Wave, log: seq<Completion>, k: nat, final: bool) {
    && 1 <= k <= |log| && LatchedBy(cfg, w, log, k, final)
    && forall j: nat :: j <= |log| && LatchedBy(cfg, w, log, j, final) ==> k <= j
  }

  lemma NotLatched(cfg: Config, records: seq<nat>, w: Wave, log: seq<Completion>)
    requires Partitioned(cfg, records, w, log) && !w.aborted
    ensures Dispatched(records, w) == Min(|records|, cfg.concurrency + |log|)
  {
  }

  lemma LatchKeepsQueue(cfg: Config, records: seq<nat>, w: Wave, x: Completion, final: bool)
    requires Complete(cfg, w, x, final).aborted
    ensures Dispatched(records, Complete(cfg, w, x, final)) == Dispatched(records, w)
  {
  }

  lemma SamePrefixes(cfg: Config, w: Wave, before: seq<Completion>, log: seq<Completion>, final: bool)
    requires log != [] && before == log[..|log| - 1]
    ensures forall j: nat :: j < |log| ==> (LatchedBy(cfg, w, log, j, final) <==> LatchedBy(cfg, w, before, j, final))
    ensures LatchedBy(cfg, w, log, |log|, final) <==> Replay(cfg, w, log, final).aborted
  {
    hide Replay;
    assert log[..|log|] == log;
    assert forall j: nat :: j < |log| ==> before[..j] == log[..j];
  }

  /** How many records are dispatched is fixed by when the latch is first set, by `k`. */
  ghost predicate LatchFixes(cfg: Config, records: seq<nat>, start: Wave, log: seq<Completion>, k: nat, final: bool) {
    var w := Replay(cfg, start, log, final);
    if w.aborted then
      FirstLatch(cfg, start, log, k, final) && Dispatched(records, w) == Min(|records|, cfg.concurrency + k - 1)
    else
      forall j: nat :: j <= |log| ==> !LatchedBy(cfg, start, log, j, final)
  }

  lemma LatchStep(cfg: Config, records: seq<nat>, start: Wave, before: seq<Completion>, log: seq<Completion>,
                  k: nat, final: bool)
    returns (k': nat)
    requires log != [] && before == log[..|log| - 1] && LatchFixes(cfg, records, start, before, k, final)
    requires Partitioned(cfg, records, Replay(cfg, start, before, final), before)
    ensures LatchFixes(cfg, records, start, log, k', final)
  {
    var w, x := Replay(cfg, start, before, final), log[|log| - 1];
    var w' := Complete(cfg, w, x, final);
    assert Replay(cfg, start, log, final) == w';
    SamePrefixes(cfg, start, before, log, final);
    k' := k;
    if w'.aborted {
      LatchKeepsQueue(cfg, records, w, x, final);
      if !w.aborted {
        NotLatched(cfg, records, w, before);
        k' := |log|;
      }
      hide Replay, Complete, LatchedBy, Partitioned, Dispatched;
      FirstOfMore(cfg, start, before, log, k', final);
    } else {
      hide Replay, LatchedBy, Partitioned, Dispatched, FirstLatch;
    }
  }

  lemma {:induction false} DispatchedAtLatch(cfg: Config, records: seq<nat>, streak: nat,
                                             log: seq<Completion>, final: bool)
    returns (k: nat)
    requires Distinct(records) && Possible(cfg, Start(cfg, records, streak), log, final)
    ensures LatchFixes(cfg, records, Start(cfg, records, streak), log, k, final)
  {
    if log == [] {
      k := 0;
      NothingLatched(cfg, records, streak, final);
    } else {
      hide Start, LatchFixes, Partitioned, Replay;
      var before := log[..|log| - 1];
      k := DispatchedAtLatch(cfg, records, streak, before, final);
      WaveIsPartitioned(cfg, records, streak, before, final);
      k := LatchStep(cfg, records, Start(cfg, records, streak), before, log, k, final);
    }
  }

  lemma NothingLatched(cfg: Config, records: seq<nat>, streak: nat, final: bool)
    ensures !Replay(cfg, Start(cfg, records, streak), [], final).aborted
    ensures !LatchedBy(cfg, Start(cfg, records, streak), [], 0, final)
  {
  }

  lemma FirstOfMore(cfg: Config, w: Wave, before: seq<Completion>, log: seq<Completion>, k: nat, final: bool)
    requires |before| + 1 == |log| && LatchedBy(cfg, w, log, |log|, final)
    requires forall j: nat :: j < |log| ==> (LatchedBy(cfg, w, log, j, final) <==> LatchedBy(cfg, w, before, j, final))
    requires || FirstLatch(cfg, w, before, k, final)
             || (k == |log| && forall j: nat :: j < |log| ==> !LatchedBy(cfg, w, before, j, final))
    ensures FirstLatch(cfg, w, log, k, final)
  {
    hide LatchedBy;
  }

  /** A wave that ran out leaves records undispatched exactly if some `k` completions set the
      latch while fewer than the wave, `k` and the window less one, had been handed out. */
  lemma LeavesSomeIff(cfg: Config, records: seq<nat>, streak: nat, log: seq<Completion>, final: bool)
    requires cfg.Valid() && Distinct(records) && Possible(cfg, Start(cfg, records, streak), log, final)
    requires Replay(cfg, Start(cfg, records, streak), log, final).inFlight == {}
    ensures |Replay(cfg, Start(cfg, records, streak), log, final).undispatched| > 0 <==>
            exists k: nat :: 1 <= k <= |log| && k + cfg.concurrency - 1 < |records|
                             && LatchedBy(cfg, Start(cfg, records, streak), log, k, final)
  {
    var start := Start(cfg, records, streak);
    var first := DispatchedAtLatch(cfg, records, streak, log, final);
    FinishedWave(cfg, records, streak, log, final);
    hide Start, Replay, Possible, LatchedBy;
  }

  // --- an outage -------------------------------------------------------------------------------------

  /** Completions that went over the network. */
  function Networked(log: seq<Completion>): nat {
    if log == [] then 0
    else Networked(log[..|log| - 1]) + (if log[|log| - 1].result.isLocalReject then 0 else 1)
  }

  lemma NetworkedOneMore(log: seq<Completion>, x: Completion)
    ensures Networked(log + [x]) == Networked(log) + (if x.result.isLocalReject then 0 else 1)
  {
    assert (log + [x])[..|log|] == log;
  }

  /** Every answer that came over the network was an error. */
  ghost predicate Outage(log: seq<Completion>) {
    forall i :: 0 <= i < |log| ==> log[i].result.isLocalReject || log[i].result.isNetworkError
  }

  /** What holds throughout an outage: `sent` completions over the network, `done` in
      all, `d` dispatched out of `n`. */
  predicate OutageState(cfg: Config, w: Wave, n: nat, d: int, sent: nat, done: nat) {
    && w.streak == sent <= done
    && (w.aborted <==> w.streak >= cfg.threshold)
    && (w.aborted ==> sent + |w.inFlight| <= cfg.threshold + cfg.concurrency - 1)
    && (!w.aborted ==> d == Min(n, cfg.concurrency + done))
    && (w.aborted && sent == done ==> d == Min(n, cfg.threshold + cfg.concurrency - 1))
  }

  lemma CompleteDuringOutage(cfg: Config, w: Wave, n: nat, sent: nat, done: nat, x: Completion)
    requires cfg.Valid() && |w.undispatched| <= n && OutageState(cfg, w, n, n - |w.undispatched|, sent, done)
    requires |w.inFlight| <= cfg.concurrency && x.id in w.inFlight && WellFormed(x.result)
    requires x.result.isLocalReject || x.result.isNetworkError
    ensures var w' := Complete(cfg, w, x, false);
            OutageState(cfg, w', n, n - |w'.undispatched|, sent + (if x.result.isLocalReject then 0 else 1), done + 1)
  {
  }

  lemma OutageStart(cfg: Config, records: seq<nat>)
    requires cfg.Valid()
    ensures var w := Start(cfg, records, 0); OutageState(cfg, w, |records|, Dispatched(records, w), 0, 0)
  {
  }

  lemma {:induction false} OutageCount(cfg: Config, records: seq<nat>, log: seq<Completion>)
    requires cfg.Valid() && Distinct(records)
    requires Possible(cfg, Start(cfg, records, 0), log, false) && Outage(log)
    ensures var w := Replay(cfg, Start(cfg, records, 0), log, false);
            OutageState(cfg, w, |records|, Dispatched(records, w), Networked(log), |log|)
  {
    if log == [] {
      OutageStart(cfg, records);
      hide OutageState, Start;
    } else {
      var before, x := log[..|log| - 1], log[|log| - 1];
      OutageSplit(log);
      ReplayOneMore(cfg, Start(cfg, records, 0), before, x, false);
      NetworkedOneMore(before, x);
      hide OutageState, Complete, Start, Partitioned, Replay, Possible, Networked, Outage, WellFormed;
      OutageCount(cfg, records, before);
      OneMoreInOutage(cfg, records, before, x);
    }
  }

  lemma OutageSplit(log: seq<Completion>)
    requires log != [] && Outage(log)
    ensures var before, x := log[..|log| - 1], log[|log| - 1];
            log == before + [x] && Outage(before) && (x.result.isLocalReject || x.result.isNetworkError)
  {
    var before := log[..|log| - 1];
    assert forall i :: 0 <= i < |before| ==> before[i] == log[i];
  }

  lemma OneMoreInOutage(cfg: Config, records: seq<nat>, before: seq<Completion>, x: Completion)
    requires cfg.Valid() && Distinct(records) && Possible(cfg, Start(cfg, records, 0), before, false)
    requires WellFormed(x.result) && (x.result.isLocalReject || x.result.isNetworkError)
    requires var w := Replay(cfg, Start(cfg, records, 0), before, false);
             x.id in w.inFlight
             && OutageState(cfg, w, |records|, Dispatched(records, w), Networked(before), |before|)
    ensures var w' := Complete(cfg, Replay(cfg, Start(cfg, records, 0), before, false), x, false);
            OutageState(cfg, w', |records|, Dispatched(records, w'),
                        Networked(before) + (if x.result.isLocalReject then 0 else 1), |before| + 1)
  {
    hide OutageState, Complete, Start, Partitioned, Replay, Possible, Networked, WellFormed;
    var w := Replay(cfg, Start(cfg, records, 0), before, false);
    WaveIsPartitioned(cfg, records, 0, before, false);
    PartitionBounds(cfg, records, w, before);
    CompleteDuringOutage(cfg, w, |records|, Networked(before), |before|, x);
  }

  /** During an outage a first wave makes at most threshold + window - 1 posts, dispatches
      exactly that many (or all) when nothing is rejected locally, and has at most
      window - 1 sends left to drain once the latch sets. */
  lemma OutageBound(cfg: Config, records: seq<nat>, log: seq<Completion>)
    requires cfg.Valid() && Distinct(records)
    requires Possible(cfg, Start(cfg, records, 0), log, false) && Outage(log)
    ensures var w := Replay(cfg, Start(cfg, records, 0), log, false);
            && Networked(log) + |w.inFlight| <= cfg.threshold + cfg.concurrency - 1
            && (w.aborted && log != [] && !Replay(cfg, Start(cfg, records, 0), log[..|log| - 1], false).aborted
                ==> |w.inFlight| <= cfg.concurrency - 1)
            && (w.inFlight == {} && Networked(log) == |log| ==>
                  |log| == Min(|records|, cfg.threshold + cfg.concurrency - 1))
  {
    OutageCount(cfg, records, log);
    WaveIsPartitioned(cfg, records, 0, log, false);
    if log != [] {
      WaveIsPartitioned(cfg, records, 0, log[..|log| - 1], false);
    }
  }
}
