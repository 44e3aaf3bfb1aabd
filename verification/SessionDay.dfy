/** A day of passes that share one cached session: how often the bureau is asked for a
    session, and what happens when the cached one is dead. */
module SessionDay {
  import opened Basics
  import opened Results
  import opened Store
  import opened Waves
  import opened Passes
  import opened Protocol
  import opened Reposting

  /** What a pass came to: nothing was sendable, no session was to be had, or it ran. */
  datatype Outcome = NothingToSend | LoginRefused | Ran(pass: Pass)

  predicate Renews(cfg: Config, o: Outcome) { o.Ran? && Reauthenticates(cfg, o.pass) }

  /** Authentication requests of one pass that starts with or without a known session. */
  function AuthCalls(cfg: Config, known: bool, o: Outcome): nat {
    (if o.NothingToSend? || known then 0 else 1) + (if Renews(cfg, o) then 1 else 0)
  }

  /** Whether a session is cached once the pass is over. */
  function CachedAfter(cached: bool, o: Outcome): bool { cached || o.Ran? }

  /** What a pass can come to: a login is refused only without a session. */
  ghost predicate Allowed(cfg: Config, cached: bool, o: Outcome) {
    match o
    case NothingToSend => true
    case LoginRefused => !cached
    case Ran(p) => Completed(cfg, p) && p.order != []
  }

  function CachedAfterAll(cached: bool, day: seq<Outcome>): bool {
    if day == [] then cached else CachedAfter(CachedAfterAll(cached, day[..|day| - 1]), day[|day| - 1])
  }

  ghost predicate DayAllowed(cfg: Config, cached: bool, day: seq<Outcome>) {
    forall i :: 0 <= i < |day| ==> Allowed(cfg, CachedAfterAll(cached, day[..i]), day[i])
  }

  function DayCalls(cfg: Config, cached: bool, day: seq<Outcome>): nat {
    if day == [] then 0
    else
      var n := |day| - 1;
      DayCalls(cfg, cached, day[..n]) + AuthCalls(cfg, CachedAfterAll(cached, day[..n]), day[n])
  }

  function Refusals(day: seq<Outcome>): nat {
    if day == [] then 0 else Refusals(day[..|day| - 1]) + (if day[|day| - 1].LoginRefused? then 1 else 0)
  }

  function Renewals(cfg: Config, day: seq<Outcome>): nat {
    if day == [] then 0
    else Renewals(cfg, day[..|day| - 1]) + (if Renews(cfg, day[|day| - 1]) then 1 else 0)
  }

  lemma OneMoreOutcome(cfg: Config, cached: bool, day: seq<Outcome>, o: Outcome)
    ensures CachedAfterAll(cached, day + [o]) == CachedAfter(CachedAfterAll(cached, day), o)
    ensures DayCalls(cfg, cached, day + [o])
            == DayCalls(cfg, cached, day) + AuthCalls(cfg, CachedAfterAll(cached, day), o)
    ensures DayAllowed(cfg, cached, day) && Allowed(cfg, CachedAfterAll(cached, day), o)
            ==> DayAllowed(cfg, cached, day + [o])
  {
    var more := day + [o];
    assert more[..|day|] == day;
    forall i | 0 <= i < |day| ensures more[..i] == day[..i] && more[i] == day[i] {
    }
  }

  lemma DayPrefix(cfg: Config, cached: bool, day: seq<Outcome>)
    requires day != [] && DayAllowed(cfg, cached, day)
    ensures var n := |day| - 1; DayAllowed(cfg, cached, day[..n])
                                && Allowed(cfg, CachedAfterAll(cached, day[..n]), day[n])
  {
    hide Allowed;
    var n := |day| - 1;
    forall i | 0 <= i < n ensures day[..n][..i] == day[..i] && day[..n][i] == day[i] {
    }
  }

  /** Over a day of any number of passes the bureau is asked once for the session they
      share, and beyond that once for each refused login and once for each renewal. */
  lemma {:induction false} AuthCallsOfADay(cfg: Config, cached: bool, day: seq<Outcome>)
    requires DayAllowed(cfg, cached, day)
    ensures DayCalls(cfg, cached, day)
            == (if !cached && CachedAfterAll(cached, day) then 1 else 0) + Refusals(day) + Renewals(cfg, day)
    ensures cached ==> CachedAfterAll(cached, day) && Refusals(day) == 0
  {
    if day != [] {
      hide DayAllowed, Completed, Renews;
      DayPrefix(cfg, cached, day);
      AuthCallsOfADay(cfg, cached, day[..|day| - 1]);
    }
  }

  // --- a dead session -----------------------------------------------------------------------

  /** Every answer of the bureau was that the session is stale. */
  ghost predicate Dead(log: seq<Completion>) {
    forall i :: 0 <= i < |log| ==> log[i].result.sessionExpired || log[i].result.isLocalReject
  }

  /** What a pass over these tables would post: sendable, and small enough. */
  function Postable(cfg: Config, recs: Records): set<nat> {
    set id | id in recs && Sendable(recs[id], cfg.retryCap) && FitsEnvelope(cfg, recs, id)
  }

  function Fitting(cfg: Config, recs: Records, ids: seq<nat>): set<nat> {
    set id | id in ids && FitsEnvelope(cfg, recs, id)
  }

  /** Completions over the network are those of records that fit. */
  lemma {:induction false} NetworkedCount(cfg: Config, recs: Records, log: seq<Completion>)
    requires Distinct(Ids(log)) && OutcomesFit(cfg, recs, log)
    ensures Networked(log) == |Fitting(cfg, recs, Ids(log))|
  {
    if log != [] {
      var before, x := log[..|log| - 1], log[|log| - 1];
      LastIsNew(log);
      assert forall i :: 0 <= i < |before| ==> before[i] == log[i];
      assert x.result.isLocalReject <==> !FitsEnvelope(cfg, recs, x.id);
      hide Fits, Fitting, FitsEnvelope, Elems;
      NetworkedCount(cfg, recs, before);
      OneMoreFitting(cfg, recs, Ids(before), x.id);
    }
  }

  lemma OneMoreFitting(cfg: Config, recs: Records, ids: seq<nat>, id: nat)
    requires id !in ids
    ensures |Fitting(cfg, recs, ids + [id])|
            == |Fitting(cfg, recs, ids)| + (if FitsEnvelope(cfg, recs, id) then 1 else 0)
  {
    if FitsEnvelope(cfg, recs, id) {
      assert Fitting(cfg, recs, ids + [id]) == Fitting(cfg, recs, ids) + {id};
    } else {
      assert Fitting(cfg, recs, ids + [id]) == Fitting(cfg, recs, ids);
    }
  }

  /** With a dead session the pass gives up before the renewal exactly when it has
      `threshold` records to post: stale answers feed the abort streak. Then the summary
      shows nothing sent and nothing failed. With fewer, and at least one, it renews. */
  lemma DeadPass(cfg: Config, recs: Records, p: Pass)
    requires cfg.Valid() && Completed(cfg, p) && IsSendList(recs, cfg.retryCap, p.order)
    requires OutcomesFit(cfg, recs, p.first) && Dead(p.first)
    ensures FirstWave(cfg, p).aborted <==> |Postable(cfg, recs)| >= cfg.threshold
    ensures Reauthenticates(cfg, p) <==> 0 < |Postable(cfg, recs)| < cfg.threshold
    ensures FirstWave(cfg, p).aborted ==>
              p.second == [] && Shortfall(cfg, p) >= cfg.threshold
              && Summary(cfg, p).sent == Summary(cfg, p).failed == 0
  {
    var w := FirstWave(cfg, p);
    PossibleMeansWellFormed(cfg, Start(cfg, p.order, 0), p.first, false);
    OutageCount(cfg, p.order, p.first);
    FinishedWave(cfg, p.order, 0, p.first, false);
    CommittedAreListed(cfg, p.order, 0, p.first, false);
    ExpiredIsStale(cfg, Start(cfg, p.order, 0), p.first, false);
    NetworkedCount(cfg, recs, p.first);
    StaleAreNetworked(p.first);
    NothingCounted(p.first);
    hide Completed, Possible, Start, Replay, OutcomesFit, Dead;
    CommittedPostable(cfg, recs, p.order, Ids(p.first));
    if !w.aborted {
      AllCommitted(p.order, Ids(p.first));
    }
    if w.aborted {
      NoResend(cfg, p);
    }
  }

  lemma AllCommitted(order: seq<nat>, ids: seq<nat>)
    requires Elems(ids) == Elems(order)
    ensures forall id :: id in order <==> id in ids
  {
    forall id ensures id in order <==> id in ids {
      MemberOfElems(order, id);
      MemberOfElems(ids, id);
    }
  }

  lemma CommittedPostable(cfg: Config, recs: Records, order: seq<nat>, ids: seq<nat>)
    requires IsSendList(recs, cfg.retryCap, order) && forall id :: id in ids ==> id in order
    ensures |Fitting(cfg, recs, ids)| <= |Postable(cfg, recs)|
    ensures (forall id :: id in order <==> id in ids) ==> Fitting(cfg, recs, ids) == Postable(cfg, recs)
  {
    SubsetSize(Fitting(cfg, recs, ids), Postable(cfg, recs));
  }

  lemma {:induction false} StaleAreNetworked(log: seq<Completion>)
    requires Dead(log) && forall i :: 0 <= i < |log| ==> WellFormed(log[i].result)
    ensures |Stale(log)| == Networked(log)
  {
    if log != [] {
      var n := |log| - 1;
      assert forall i :: 0 <= i < n ==> log[..n][i] == log[i];
      StaleAreNetworked(log[..n]);
    }
  }

  lemma {:induction false} NothingCounted(log: seq<Completion>)
    requires Dead(log) && forall i :: 0 <= i < |log| ==> WellFormed(log[i].result)
    ensures TallyAll(NOTHING, log, false).sent == TallyAll(NOTHING, log, false).failed == 0
  {
    if log != [] {
      var n := |log| - 1;
      assert forall i :: 0 <= i < n ==> log[..n][i] == log[i];
      NothingCounted(log[..n]);
    }
  }

  /** A wave can always be driven to its end, whatever each record's result is. */
  lemma WholeWave(cfg: Config, records: seq<nat>, streak: nat, final: bool,
                  f: nat -> UploadResult, log: seq<Completion>)
    returns (log': seq<Completion>)
    requires cfg.Valid() && Distinct(records) && forall id :: WellFormed(f(id))
    requires Possible(cfg, Start(cfg, records, streak), log, final)
    requires forall i :: 0 <= i < |log| ==> log[i].result == f(log[i].id)
    ensures Possible(cfg, Start(cfg, records, streak), log', final)
    ensures Replay(cfg, Start(cfg, records, streak), log', final).inFlight == {}
    ensures forall i :: 0 <= i < |log'| ==> log'[i].result == f(log'[i].id)
    decreases |records| - |log|
  {
    hide Start, Possible, Replay;
    var start := Start(cfg, records, streak);
    var inFlight := Replay(cfg, start, log, final).inFlight;
    if inFlight == {} {
      return log;
    }
    var x :| x in inFlight;
    var next := Completion(x, f(x));
    ReplayOneMore(cfg, start, log, next, final);
    WaveTerminates(cfg, records, streak, log + [next], final, f(x));
    log' := WholeWave(cfg, records, streak, final, f, log + [next]);
  }

  /** Over any tables there is a pass that meets a dead session. */
  lemma DeadPassHappens(cfg: Config, recs: Records) returns (p: Pass)
    requires cfg.Valid()
    ensures Completed(cfg, p) && IsSendList(recs, cfg.retryCap, p.order)
    ensures OutcomesFit(cfg, recs, p.first) && Dead(p.first)
  {
    var order := SendOrder(recs, set x | x in recs && Sendable(recs[x], cfg.retryCap));
    var stale, tooBig := UploadResult(Failed, true, true), UploadResult(Rejected, isLocalReject := true);
    var f: nat -> UploadResult := (id: nat) => if FitsEnvelope(cfg, recs, id) then stale else tooBig;
    var first := WholeWave(cfg, order, 0, false, f, []);
    CommittedAreListed(cfg, order, 0, first, false);
    forall i | 0 <= i < |first|
      ensures Fits(first[i].result, recs[first[i].id].line.envelopeBytes, cfg.maxLineBytes)
      ensures first[i].result.sessionExpired || first[i].result.isLocalReject
    {
      SomeOutcomes(recs[first[i].id].line.envelopeBytes, cfg.maxLineBytes);
    }
    p := Pass(order, first, false, []);
  }

  /** So the summary does fall short of the tables, over any tables with `threshold` records
      to post. */
  lemma ShortfallHappens(cfg: Config, recs: Records)
    requires cfg.Valid() && |Postable(cfg, recs)| >= cfg.threshold
    ensures exists p :: Completed(cfg, p) && IsSendList(recs, cfg.retryCap, p.order) && Shortfall(cfg, p) > 0
  {
    var p := DeadPassHappens(cfg, recs);
    DeadPass(cfg, recs, p);
  }

  // --- a dead session all day ----------------------------------------------------------------

  ghost predicate RowsOk(cfg: Config, recs: Records) {
    forall id :: id in recs ==> RowOk(cfg, recs[id])
  }

  /** A dead pass takes nothing away from what can be posted. */
  lemma {:induction false} DeadLogKeepsPostable(cfg: Config, recs: Records, log: seq<Completion>)
    requires RowsOk(cfg, recs) && OutcomesFit(cfg, recs, log) && Dead(log) && cfg.Valid()
    ensures forall id :: id in Postable(cfg, recs) ==>
              id in Postable(cfg, CommitAll(recs, log)) && CommitAll(recs, log)[id].attempts < cfg.retryCap
  {
    if log != [] {
      var n := |log| - 1;
      assert forall i :: 0 <= i < n ==> log[..n][i] == log[i];
      DeadLogKeepsPostable(cfg, recs, log[..n]);
      CommitsAreLocal(recs, log[..n]);
      assert WellFormed(log[n].result) && (log[n].result.isLocalReject <==> !FitsEnvelope(cfg, recs, log[n].id));
      hide Fits, Dead, OutcomesFit, CommitResult;
      forall id | id in Postable(cfg, recs)
        ensures id in Postable(cfg, CommitAll(recs, log)) && CommitAll(recs, log)[id].attempts < cfg.retryCap
      {
        DeadCommit(cfg, CommitAll(recs, log[..n]), log[n], id);
      }
    }
  }

  lemma DeadCommit(cfg: Config, recs: Records, x: Completion, id: nat)
    requires id in Postable(cfg, recs) && recs[id].attempts < cfg.retryCap
    requires WellFormed(x.result) && (x.result.sessionExpired || x.result.isLocalReject)
    requires x.result.isLocalReject <==> !FitsEnvelope(cfg, recs, x.id)
    ensures id in Postable(cfg, CommitResult(recs, x.id, x.result))
    ensures CommitResult(recs, x.id, x.result)[id].attempts < cfg.retryCap
  {
  }

  /** Ingesting files and resetting records between passes take nothing away either. */
  lemma BetweenPasses(cfg: Config, recs: Records, step: Step)
    requires step.Ingest? || step.Reset?
    requires Enabled(cfg, System(recs, Idle), step)
    ensures Postable(cfg, recs) <= Postable(cfg, Apply(cfg, System(recs, Idle), step).recs)
  {
  }

  /** One pass of a day: over which tables it ran, and what it was. */
  datatype DayRun = DayRun(recs: Records, pass: Pass)

  ghost predicate DeadRun(cfg: Config, d: DayRun) {
    && RowsOk(cfg, d.recs) && Completed(cfg, d.pass) && IsSendList(d.recs, cfg.retryCap, d.pass.order)
    && OutcomesFit(cfg, d.recs, d.pass.first) && Dead(d.pass.first)
  }

  ghost predicate Follows(cfg: Config, a: DayRun, b: DayRun) {
    Postable(cfg, Final(a.recs, a.pass)) <= Postable(cfg, b.recs)
  }

  function Outcomes(day: seq<DayRun>): (os: seq<Outcome>)
    ensures |os| == |day| && forall i :: 0 <= i < |os| ==> os[i] == Ran(day[i].pass)
  {
    seq(|day|, i requires 0 <= i < |day| => Ran(day[i].pass))
  }

  lemma DeadRunAgain(cfg: Config, a: DayRun, b: DayRun)
    requires cfg.Valid() && DeadRun(cfg, a) && Follows(cfg, a, b) && |Postable(cfg, a.recs)| >= cfg.threshold
    ensures |Postable(cfg, b.recs)| >= cfg.threshold
  {
    DeadPass(cfg, a.recs, a.pass);
    DeadLogKeepsPostable(cfg, a.recs, a.pass.first);
    assert Final(a.recs, a.pass) == CommitAll(a.recs, a.pass.first);
    SubsetSize(Postable(cfg, a.recs), Postable(cfg, b.recs));
  }

  /** The bureau drops the cached session while `threshold` records wait: every pass of the
      day aborts over its stale answers, none of them ever asks for a new session, and none
      sends anything. */
  lemma {:induction false} DeadDay(cfg: Config, day: seq<DayRun>)
    requires cfg.Valid() && (forall i :: 0 <= i < |day| ==> DeadRun(cfg, day[i]))
    requires forall i :: 0 < i < |day| ==> Follows(cfg, day[i - 1], day[i])
    requires day != [] ==> |Postable(cfg, day[0].recs)| >= cfg.threshold
    ensures DayCalls(cfg, true, Outcomes(day)) == 0 && CachedAfterAll(true, Outcomes(day))
    ensures forall i :: 0 <= i < |day| ==>
              && |Postable(cfg, day[i].recs)| >= cfg.threshold
              && Aborted(cfg, day[i].pass) && Summary(cfg, day[i].pass).sent == 0
              && !Reauthenticates(cfg, day[i].pass)
  {
    hide DeadRun, Follows, Postable, Aborted, Summary, Reauthenticates;
    forall i | 0 <= i < |day|
      ensures |Postable(cfg, day[i].recs)| >= cfg.threshold && !Renews(cfg, Ran(day[i].pass))
      ensures Aborted(cfg, day[i].pass) && Summary(cfg, day[i].pass).sent == 0 && !Reauthenticates(cfg, day[i].pass)
    {
      DeadAt(cfg, day, i);
      DeadRunAborts(cfg, day[i]);
    }
    NobodyAsks(cfg, Outcomes(day));
  }

  lemma {:induction false} DeadAt(cfg: Config, day: seq<DayRun>, i: nat)
    requires cfg.Valid() && i < |day| && (forall j :: 0 <= j <= i ==> DeadRun(cfg, day[j]))
    requires forall j :: 0 < j <= i ==> Follows(cfg, day[j - 1], day[j])
    requires |Postable(cfg, day[0].recs)| >= cfg.threshold
    ensures |Postable(cfg, day[i].recs)| >= cfg.threshold
  {
    if i > 0 {
      hide DeadRun, Follows, Postable;
      DeadAt(cfg, day, i - 1);
      DeadRunAgain(cfg, day[i - 1], day[i]);
    }
  }

  lemma {:induction false} NobodyAsks(cfg: Config, os: seq<Outcome>)
    requires forall i :: 0 <= i < |os| ==> !Renews(cfg, os[i])
    ensures CachedAfterAll(true, os) && DayCalls(cfg, true, os) == 0
  {
    if os != [] {
      NobodyAsks(cfg, os[..|os| - 1]);
    }
  }

  lemma DeadRunAborts(cfg: Config, d: DayRun)
    requires cfg.Valid() && DeadRun(cfg, d) && |Postable(cfg, d.recs)| >= cfg.threshold
    ensures Aborted(cfg, d.pass) && Summary(cfg, d.pass).sent == 0 && !Reauthenticates(cfg, d.pass)
    ensures !Renews(cfg, Ran(d.pass))
  {
    DeadPass(cfg, d.recs, d.pass);
  }
}
