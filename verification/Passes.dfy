/** A whole upload pass: a first wave over the send list, one re-authentication for the
    records whose session went stale, one resend wave over those, and the summary. */
module Passes {
  import opened Basics
  import opened Results
  import opened Store
  import opened Waves

  // --- what completions do to the tables and to the summary ----------------------------

  function CommitAll(recs: Records, log: seq<Completion>): Records {
    if log == [] then recs
    else CommitResult(CommitAll(recs, log[..|log| - 1]), log[|log| - 1].id, log[|log| - 1].result)
  }

  datatype Tally = Tally(sent: nat, failed: nat, rejected: nat, warnings: nat, dropped: nat)

  const NOTHING := Tally(0, 0, 0, 0, 0)

  function Count(t: Tally, r: UploadResult): Tally {
    if r.status == Sent then
      t.(sent := t.sent + 1,
         warnings := t.warnings + (if r.hasWarnings then 1 else 0),
         dropped := t.dropped + (if r.componentsDropped then 1 else 0))
    else if r.status == Rejected then t.(rejected := t.rejected + 1)
    else t.(failed := t.failed + 1)
  }

  /** A stale-session record of the first wave is left out: its resend will be counted. */
  function TallyAll(t: Tally, log: seq<Completion>, final: bool): Tally {
    if log == [] then t
    else
      var before, r := TallyAll(t, log[..|log| - 1], final), log[|log| - 1].result;
      if Resent(r, final) then before else Count(before, r)
  }

  /** Files whose records were committed. */
  function Touched(recs: Records, log: seq<Completion>): set<nat> {
    set i | 0 <= i < |log| && log[i].id in recs :: recs[log[i].id].fileId
  }

  lemma CommitOneMore(recs: Records, log: seq<Completion>, x: Completion)
    ensures CommitAll(recs, log + [x]) == CommitResult(CommitAll(recs, log), x.id, x.result)
  {
    assert (log + [x])[..|log|] == log;
  }

  lemma TallyOneMore(t: Tally, log: seq<Completion>, x: Completion, final: bool)
    ensures TallyAll(t, log + [x], final)
            == if Resent(x.result, final) then TallyAll(t, log, final) else Count(TallyAll(t, log, final), x.result)
  {
    assert (log + [x])[..|log|] == log;
  }

  /** Commits rewrite only the rows named, and of those never the identity. */
  lemma {:induction false} CommitsAreLocal(recs: Records, log: seq<Completion>)
    ensures var recs' := CommitAll(recs, log);
            && recs'.Keys == recs.Keys
            && (forall id :: id in recs && id !in Ids(log) ==> recs'[id] == recs[id])
            && (forall id :: id in recs ==> recs'[id].fileId == recs[id].fileId && recs'[id].lineNo == recs[id].lineNo
                                            && recs'[id].line == recs[id].line)
  {
    if log != [] {
      var before, x := log[..|log| - 1], log[|log| - 1];
      CommitsAreLocal(recs, before);
      assert log == before + [x];
      assert Ids(log) == Ids(before) + [x.id];
    }
  }

  /** Every outcome is one its record's envelope allows. */
  ghost predicate OutcomesFit(cfg: Config, recs: Records, log: seq<Completion>) {
    forall i :: 0 <= i < |log| ==>
                  log[i].id in recs && Fits(log[i].result, recs[log[i].id].line.envelopeBytes, cfg.maxLineBytes)
  }

  // --- one pass -----------------------------------------------------------------------------

  datatype Pass = Pass(order: seq<nat>, first: seq<Completion>, reauthOk: bool, second: seq<Completion>)

  function FirstWave(cfg: Config, p: Pass): Wave {
    Replay(cfg, Start(cfg, p.order, 0), p.first, false)
  }

  /** Some sessions went stale and the wave was not aborted. */
  predicate Reauthenticates(cfg: Config, p: Pass) {
    FirstWave(cfg, p).expired != [] && !FirstWave(cfg, p).aborted
  }

  /** The resend wave: the streak carries over, the latch starts clear. */
  function ResendStart(cfg: Config, p: Pass): Wave {
    Start(cfg, FirstWave(cfg, p).expired, FirstWave(cfg, p).streak)
  }

  function ResendWave(cfg: Config, p: Pass): Wave {
    Replay(cfg, ResendStart(cfg, p), p.second, true)
  }

  predicate Resends(cfg: Config, p: Pass) {
    Reauthenticates(cfg, p) && p.reauthOk
  }

  /** A pass that ran to its end. */
  ghost predicate Completed(cfg: Config, p: Pass) {
    && Distinct(p.order)
    && Possible(cfg, Start(cfg, p.order, 0), p.first, false)
    && FirstWave(cfg, p).inFlight == {}
    && (if Resends(cfg, p)
        then Possible(cfg, ResendStart(cfg, p), p.second, true) && ResendWave(cfg, p).inFlight == {}
        else p.second == [])
  }

  predicate Aborted(cfg: Config, p: Pass) {
    FirstWave(cfg, p).aborted || (Resends(cfg, p) && ResendWave(cfg, p).aborted)
  }

  function Summary(cfg: Config, p: Pass): Tally {
    var t := TallyAll(NOTHING, p.first, false);
    if Reauthenticates(cfg, p) && !p.reauthOk then t.(failed := t.failed + |FirstWave(cfg, p).expired|)
    else TallyAll(t, p.second, true)
  }

  // --- the abort, over both waves -----------------------------------------------------------------

  /** The pass aborts exactly when the completions of both waves, local rejects left
      out, contain `threshold` network-like errors in a row. */
  lemma AbortIff(cfg: Config, p: Pass)
    requires cfg.Valid() && Completed(cfg, p)
    ensures Aborted(cfg, p) <==> HasRun(Evidence(p.first + p.second), cfg.threshold)
  {
    var w := Start(cfg, p.order, 0);
    assert !HasRun([], cfg.threshold);
    PossibleMeansWellFormed(cfg, w, p.first, false);
    StreakRefinesRuns(cfg, w, [], p.first, false);
    assert [] + Evidence(p.first) == Evidence(p.first);
    if Resends(cfg, p) {
      PossibleMeansWellFormed(cfg, ResendStart(cfg, p), p.second, true);
      StreakRefinesRuns(cfg, ResendStart(cfg, p), Evidence(p.first), p.second, true);
      EvidenceAppends(p.first, p.second);
    } else {
      assert p.first + p.second == p.first;
    }
  }

  /** The session is renewed exactly when one went stale and the first wave never met
      `threshold` network-like errors in a row: stale results count as such. */
  lemma ReauthenticatesIff(cfg: Config, p: Pass)
    requires cfg.Valid() && Completed(cfg, p)
    ensures FirstWave(cfg, p).aborted <==> HasRun(Evidence(p.first), cfg.threshold)
    ensures Reauthenticates(cfg, p) <==> Stale(p.first) != [] && !HasRun(Evidence(p.first), cfg.threshold)
  {
    var w := Start(cfg, p.order, 0);
    assert !HasRun([], cfg.threshold);
    PossibleMeansWellFormed(cfg, w, p.first, false);
    StreakRefinesRuns(cfg, w, [], p.first, false);
    assert [] + Evidence(p.first) == Evidence(p.first);
    ExpiredIsStale(cfg, w, p.first, false);
  }

  // --- warnings -----------------------------------------------------------------------------------

  /** How many completions are of this kind. */
  function HowMany(log: seq<Completion>, kind: UploadResult -> bool): nat {
    if log == [] then 0 else HowMany(log[..|log| - 1], kind) + (if kind(log[|log| - 1].result) then 1 else 0)
  }

  predicate AcceptedWithWarnings(r: UploadResult) { r.status == Sent && r.hasWarnings }

  predicate AcceptedInPart(r: UploadResult) { r.status == Sent && r.componentsDropped }

  lemma {:induction false} TallyCountsWarnings(t: Tally, log: seq<Completion>, final: bool)
    requires forall i :: 0 <= i < |log| ==> WellFormed(log[i].result)
    ensures var t' := TallyAll(t, log, final);
            && t'.warnings == t.warnings + HowMany(log, AcceptedWithWarnings)
            && t'.dropped == t.dropped + HowMany(log, AcceptedInPart)
  {
    if log != [] {
      var before := log[..|log| - 1];
      assert forall i :: 0 <= i < |before| ==> before[i] == log[i];
      TallyCountsWarnings(t, before, final);
    }
  }

  /** The summary counts the accepted records with warnings, and those that lost a component,
      of both waves, and nothing else: not those rejected, and no stale session. */
  lemma WarningsAreCounted(cfg: Config, p: Pass)
    requires cfg.Valid() && Completed(cfg, p)
    ensures Summary(cfg, p).warnings == HowMany(p.first + p.second, AcceptedWithWarnings)
    ensures Summary(cfg, p).dropped == HowMany(p.first + p.second, AcceptedInPart)
  {
    PossibleMeansWellFormed(cfg, Start(cfg, p.order, 0), p.first, false);
    TallyCountsWarnings(NOTHING, p.first, false);
    if Resends(cfg, p) {
      PossibleMeansWellFormed(cfg, ResendStart(cfg, p), p.second, true);
      TallyCountsWarnings(TallyAll(NOTHING, p.first, false), p.second, true);
    } else {
      NoResend(cfg, p);
    }
    HowManyAppends(p.first, p.second, AcceptedWithWarnings);
    HowManyAppends(p.first, p.second, AcceptedInPart);
  }

  lemma {:induction false} HowManyAppends(a: seq<Completion>, b: seq<Completion>, kind: UploadResult -> bool)
    ensures HowMany(a + b, kind) == HowMany(a, kind) + HowMany(b, kind)
  {
    if b == [] {
      assert a + b == a;
    } else {
      HowManyAppends(a, b[..|b| - 1], kind);
      assert (a + b)[..|a + b| - 1] == a + b[..|b| - 1];
    }
  }

  // --- who is sent how often -------------------------------------------------------------------------

  function Times(log: seq<Completion>, id: nat): nat {
    if log == [] then 0 else Times(log[..|log| - 1], id) + (if log[|log| - 1].id == id then 1 else 0)
  }

  lemma {:induction false} DistinctMeansOnce(log: seq<Completion>, id: nat)
    requires Distinct(Ids(log))
    ensures Times(log, id) == if id in Ids(log) then 1 else 0
  {
    if log != [] {
      LastIsNew(log);
      DistinctMeansOnce(log[..|log| - 1], id);
    }
  }

  /** In a pass a record completes at most once per wave, and in the second wave only if
      its first result was a stale session. */
  lemma SentAtMostTwice(cfg: Config, p: Pass, id: nat)
    requires cfg.Valid() && Completed(cfg, p)
    ensures Times(p.first, id) <= 1 && Times(p.second, id) <= Times(p.first, id)
    ensures Times(p.second, id) == 1 ==>
              exists i :: 0 <= i < |p.first| && p.first[i].id == id && p.first[i].result.sessionExpired
    ensures id in p.order && !Aborted(cfg, p) ==> Times(p.first, id) == 1
  {
    FinishedWave(cfg, p.order, 0, p.first, false);
    DistinctMeansOnce(p.first, id);
    ExpiredIsStale(cfg, Start(cfg, p.order, 0), p.first, false);
    StaleIds(p.first);
    MemberOfElems(Ids(p.first), id);
    MemberOfElems(p.order, id);
    if Resends(cfg, p) {
      var stale := FirstWave(cfg, p).expired;
      FinishedWave(cfg, stale, FirstWave(cfg, p).streak, p.second, true);
      DistinctMeansOnce(p.second, id);
      if id in Ids(p.second) {
        assert id in Elems(stale[..|p.second|]);
        assert id in stale;
        assert id in Elems(stale);
      }
    }
  }

  // --- where a stored status comes from ----------------------------------------------------------------

  /** A row whose status a log of commits changed holds a status committed for it. */
  lemma {:induction false} CommittedStatus(recs: Records, log: seq<Completion>, id: nat)
    requires id in recs
    ensures id in CommitAll(recs, log)
    ensures CommitAll(recs, log)[id].status == recs[id].status
            || exists x :: x in log && x.id == id && CommitAll(recs, log)[id].status == x.result.status
  {
    if log != [] {
      var before := log[..|log| - 1];
      CommitsAreLocal(recs, before);
      CommittedStatus(recs, before, id);
      assert log == before + [log[|log| - 1]];
    }
  }

  /** One of these completions is of this record, and only replies of this kind lead to it. */
  ghost predicate AnsweredBy(log: seq<Completion>, id: nat, kind: Reply -> bool) {
    exists x :: x in log && x.id == id && ComesFrom(x.result, kind)
  }

  /** However a pass went, a record it leaves stored as sent was sent before, or fits and was
      accepted by the bureau with no component rejected; and one it leaves rejected was
      rejected before, is too big, or was rejected by the bureau, whole or in part. */
  lemma StoredAsAnswered(cfg: Config, recs: Records, p: Pass, id: nat)
    requires OutcomesFit(cfg, recs, p.first) && OutcomesFit(cfg, recs, p.second) && id in recs
    ensures id in Final(recs, p)
    ensures Final(recs, p)[id].status == Sent ==>
              || recs[id].status == Sent
              || (recs[id].line.envelopeBytes <= cfg.maxLineBytes && AnsweredBy(p.first + p.second, id, Accepts))
    ensures Final(recs, p)[id].status == Rejected ==>
              || recs[id].status == Rejected || recs[id].line.envelopeBytes > cfg.maxLineBytes
              || AnsweredBy(p.first + p.second, id, Rejects)
  {
    CommittedStatus(recs, p.first, id);
    CommittedStatus(CommitAll(recs, p.first), p.second, id);
    var log := p.first + p.second;
    hide CommitAll, ComesFrom, Accepts, Rejects, Fits;
    forall x | x in log && x.id == id
      ensures x.result.status == Sent ==> recs[id].line.envelopeBytes <= cfg.maxLineBytes
      ensures x.result.status == Sent ==> ComesFrom(x.result, Accepts)
      ensures x.result.status == Rejected ==>
                recs[id].line.envelopeBytes > cfg.maxLineBytes || ComesFrom(x.result, Rejects)
    {
      FitsMeansAnswered(x.result, recs[id].line.envelopeBytes, cfg.maxLineBytes);
    }
  }

  // --- the summary against the tables -------------------------------------------------------------------

  function WithStatusIn(recs: Records, ids: set<nat>, s: Status): set<nat> {
    set id | id in ids && id in recs && recs[id].status == s
  }

  function StatusCount(recs: Records, ids: set<nat>, s: Status): nat {
    |WithStatusIn(recs, ids, s)|
  }

  lemma FirstCommitCounts(recs: Records, ids: set<nat>, id: nat, r: UploadResult, s: Status)
    requires id in recs && id !in ids
    ensures StatusCount(CommitResult(recs, id, r), ids + {id}, s)
            == StatusCount(recs, ids, s) + (if r.status == s then 1 else 0)
  {
    var recs' := CommitResult(recs, id, r);
    if r.status == s {
      assert WithStatusIn(recs', ids + {id}, s) == WithStatusIn(recs, ids, s) + {id};
    } else {
      assert WithStatusIn(recs', ids + {id}, s) == WithStatusIn(recs, ids, s);
    }
  }

  lemma RecommitCounts(recs: Records, ids: set<nat>, id: nat, r: UploadResult, s: Status)
    requires id in recs && id in ids
    ensures StatusCount(CommitResult(recs, id, r), ids, s)
            == StatusCount(recs, ids, s) + (if r.status == s then 1 else 0) - (if recs[id].status == s then 1 else 0)
  {
    var rest := ids - {id};
    assert ids == rest + {id};
    FirstCommitCounts(recs, rest, id, r, s);
    if recs[id].status == s {
      assert WithStatusIn(recs, ids, s) == WithStatusIn(recs, rest, s) + {id};
    } else {
      assert WithStatusIn(recs, ids, s) == WithStatusIn(recs, rest, s);
    }
  }

  /** A tally that agrees with the tables, except for `owed` failed records not yet
      counted. */
  predicate Agrees(t: Tally, recs: Records, ids: set<nat>, owed: int) {
    && t.sent == StatusCount(recs, ids, Sent)
    && t.rejected == StatusCount(recs, ids, Rejected)
    && t.failed + owed == StatusCount(recs, ids, Failed)
    && t.dropped <= t.warnings <= t.sent
  }

  /** The last completion of a log without repeats is of a record not seen before. */
  lemma LastIsNew(log: seq<Completion>)
    requires log != [] && Distinct(Ids(log))
    ensures var before, x := log[..|log| - 1], log[|log| - 1];
            && log == before + [x] && Ids(log) == Ids(before) + [x.id]
            && Distinct(Ids(before)) && x.id !in Ids(before)
            && Elems(Ids(log)) == Elems(Ids(before)) + {x.id} && x.id !in Elems(Ids(before))
  {
    var before, x := log[..|log| - 1], log[|log| - 1];
    assert log == before + [x] && Ids(log) == Ids(before) + [x.id];
    forall i, j | 0 <= i < j < |before| ensures Ids(before)[i] != Ids(before)[j] {
      assert Ids(log)[i] != Ids(log)[j];
    }
    forall i | 0 <= i < |before| ensures Ids(before)[i] != x.id {
      assert Ids(log)[i] != Ids(log)[|before|];
    }
    IdsOneMore(before, x);
  }

  ghost predicate AllKnown(recs: Records, log: seq<Completion>) {
    forall i :: 0 <= i < |log| ==> log[i].id in recs && WellFormed(log[i].result)
  }

  /** A record whose only commit was a stale session is stored as failed. */
  lemma {:induction false} StaleRowsAreFailed(recs: Records, log: seq<Completion>, id: nat)
    requires Distinct(Ids(log)) && AllKnown(recs, log) && id in Stale(log)
    ensures id in CommitAll(recs, log) && CommitAll(recs, log)[id].status == Failed
  {
    LastIsNew(log);
    var before, x := log[..|log| - 1], log[|log| - 1];
    assert forall i :: 0 <= i < |before| ==> before[i] == log[i];
    CommitsAreLocal(recs, before);
    if id in Stale(before) {
      StaleRowsAreFailed(recs, before, id);
      StaleIds(before);
      assert id in Elems(Stale(before));
    }
  }

  lemma CommitAgrees(t: Tally, recs: Records, ids: set<nat>, owed: int, x: Completion)
    requires Agrees(t, recs, ids, owed) && x.id in recs && x.id !in ids && WellFormed(x.result)
    ensures Agrees(if Resent(x.result, false) then t else Count(t, x.result),
                   CommitResult(recs, x.id, x.result), ids + {x.id},
                   owed + if Resent(x.result, false) then 1 else 0)
  {
    hide StatusCount, CommitResult;
    FirstCommitCounts(recs, ids, x.id, x.result, Sent);
    FirstCommitCounts(recs, ids, x.id, x.result, Rejected);
    FirstCommitCounts(recs, ids, x.id, x.result, Failed);
  }

  lemma RecommitAgrees(t: Tally, recs: Records, ids: set<nat>, owed: int, x: Completion)
    requires Agrees(t, recs, ids, owed) && x.id in recs && x.id in ids
             && recs[x.id].status == Failed && WellFormed(x.result)
    ensures Agrees(Count(t, x.result), CommitResult(recs, x.id, x.result), ids, owed - 1)
  {
    hide StatusCount, CommitResult;
    RecommitCounts(recs, ids, x.id, x.result, Sent);
    RecommitCounts(recs, ids, x.id, x.result, Rejected);
    RecommitCounts(recs, ids, x.id, x.result, Failed);
  }

  /** After any prefix of the first wave the summary agrees with the tables, the stale
      records being exactly what it still owes. */
  lemma {:induction false} FirstWaveAgrees(recs: Records, log: seq<Completion>)
    requires Distinct(Ids(log)) && AllKnown(recs, log)
    ensures Agrees(TallyAll(NOTHING, log, false), CommitAll(recs, log), Elems(Ids(log)), |Stale(log)|)
  {
    if log == [] {
      NothingAgrees(recs);
      hide Agrees;
      assert Elems(Ids(log)) == {};
    } else {
      var before, x := log[..|log| - 1], log[|log| - 1];
      LastIsNew(log);
      KnownPrefix(recs, log);
      CommitOneMore(recs, before, x);
      TallyOneMore(NOTHING, before, x, false);
      StaleOneMore(before, x);
      hide Agrees, Count, CommitResult, CommitAll, TallyAll, Stale, WellFormed, Distinct, Elems, Ids, AllKnown;
      FirstWaveAgrees(recs, before);
      CommitsAreLocal(recs, before);
      CommitAgrees(TallyAll(NOTHING, before, false), CommitAll(recs, before), Elems(Ids(before)), |Stale(before)|, x);
    }
  }

  lemma NothingAgrees(recs: Records)
    ensures Agrees(NOTHING, recs, {}, 0)
  {
    assert forall s :: WithStatusIn(recs, {}, s) == {};
  }

  lemma KnownPrefix(recs: Records, log: seq<Completion>)
    requires log != [] && AllKnown(recs, log)
    ensures AllKnown(recs, log[..|log| - 1]) && log[|log| - 1].id in recs && WellFormed(log[|log| - 1].result)
  {
    assert forall i :: 0 <= i < |log| - 1 ==> log[..|log| - 1][i] == log[i];
  }

  /** Every resend pays off one owed record. */
  lemma {:induction false} ResendWaveAgrees(recs: Records, t: Tally, ids: set<nat>, owed: int, log: seq<Completion>)
    requires Agrees(t, recs, ids, owed) && Distinct(Ids(log)) && AllKnown(recs, log)
    requires forall i :: 0 <= i < |log| ==> log[i].id in ids && recs[log[i].id].status == Failed
    ensures Agrees(TallyAll(t, log, true), CommitAll(recs, log), ids, owed - |log|)
  {
    if log != [] {
      var before, x := log[..|log| - 1], log[|log| - 1];
      LastIsNew(log);
      assert forall i :: 0 <= i < |before| ==> before[i] == log[i];
      CommitOneMore(recs, before, x);
      TallyOneMore(t, before, x, true);
      hide Agrees, Count, CommitResult, CommitAll, TallyAll, WellFormed, Distinct, Elems;
      ResendWaveAgrees(recs, t, ids, owed, before);
      CommitsAreLocal(recs, before);
      RecommitAgrees(TallyAll(t, before, true), CommitAll(recs, before), ids, owed - |before|, x);
    }
  }

  /** Stale records that no resend and no re-auth failure accounted for. */
  function Shortfall(cfg: Config, p: Pass): int {
    if FirstWave(cfg, p).aborted then |FirstWave(cfg, p).expired|
    else if Resends(cfg, p) then |ResendWave(cfg, p).undispatched|
    else 0
  }

  function Committed(p: Pass): set<nat> { Elems(Ids(p.first)) }

  function Final(recs: Records, p: Pass): Records { CommitAll(CommitAll(recs, p.first), p.second) }

  /** The first wave of a pass: everything committed is known, nothing twice, and the
      summary owes exactly the stale records, all stored as failed. */
  lemma FirstWaveSummary(cfg: Config, p: Pass, recs: Records)
    requires cfg.Valid() && Completed(cfg, p) && forall id :: id in p.order ==> id in recs
    ensures AllKnown(recs, p.first)
    ensures Agrees(TallyAll(NOTHING, p.first, false), CommitAll(recs, p.first),
                   Committed(p), |FirstWave(cfg, p).expired|)
    ensures Distinct(FirstWave(cfg, p).expired)
    ensures forall id :: id in FirstWave(cfg, p).expired ==>
                           id in Committed(p) && id in recs && CommitAll(recs, p.first).Keys == recs.Keys
                           && CommitAll(recs, p.first)[id].status == Failed
  {
    hide Agrees;
    FinishedWave(cfg, p.order, 0, p.first, false);
    PossibleMeansWellFormed(cfg, Start(cfg, p.order, 0), p.first, false);
    CommittedAreListed(cfg, p.order, 0, p.first, false);
    FirstWaveAgrees(recs, p.first);
    ExpiredIsStale(cfg, Start(cfg, p.order, 0), p.first, false);
    StaleIds(p.first);
    CommitsAreLocal(recs, p.first);
    forall id | id in Stale(p.first)
      ensures id in Committed(p) && id in CommitAll(recs, p.first) && CommitAll(recs, p.first)[id].status == Failed
    {
      assert id in Elems(Stale(p.first));
      StaleRowsAreFailed(recs, p.first, id);
    }
  }

  lemma ResendWaveSummary(cfg: Config, p: Pass, recs: Records)
    requires cfg.Valid() && Completed(cfg, p) && forall id :: id in p.order ==> id in recs
    requires Resends(cfg, p)
    ensures AllKnown(recs, p.second)
    ensures Agrees(TallyAll(TallyAll(NOTHING, p.first, false), p.second, true), Final(recs, p), Committed(p),
                   |ResendWave(cfg, p).undispatched|)
    ensures !ResendWave(cfg, p).aborted ==> ResendWave(cfg, p).undispatched == []
  {
    hide Agrees;
    var stale, streak := FirstWave(cfg, p).expired, FirstWave(cfg, p).streak;
    FirstWaveSummary(cfg, p, recs);
    FinishedWave(cfg, stale, streak, p.second, true);
    PossibleMeansWellFormed(cfg, ResendStart(cfg, p), p.second, true);
    CommittedAreListed(cfg, stale, streak, p.second, true);
    ResendWaveAgrees(CommitAll(recs, p.first), TallyAll(NOTHING, p.first, false), Committed(p), |stale|, p.second);
  }

  /** The summary against the database after the pass: sent and rejected agree exactly,
      failed is short by exactly the stale records never resent (all of them if the
      first wave aborted, the undispatched rest if the resend wave did, none
      otherwise), and together they account for every record committed. */
  lemma SummaryIsExact(cfg: Config, p: Pass, recs: Records)
    requires cfg.Valid() && Completed(cfg, p) && forall id :: id in p.order ==> id in recs
    ensures Agrees(Summary(cfg, p), Final(recs, p), Committed(p), Shortfall(cfg, p))
    ensures !Aborted(cfg, p) ==> Shortfall(cfg, p) == 0
    ensures Summary(cfg, p).sent + Summary(cfg, p).failed + Summary(cfg, p).rejected + Shortfall(cfg, p)
            == |Committed(p)|
  {
    hide Completed, StatusCount, FirstWave, ResendWave;
    FirstWaveSummary(cfg, p, recs);
    if Resends(cfg, p) {
      ResendWaveSummary(cfg, p, recs);
    } else {
      assert p.second == [] by { NoResend(cfg, p); }
    }
    NoneIsPending(recs, p);
    StatusesPartition(Final(recs, p), Committed(p));
  }

  /** The resend wave leaves some stale record unsent exactly if the errors of both waves make
      a run of `threshold` while the window has not yet reached the last of them. */
  lemma ResendGivesUpIff(cfg: Config, p: Pass)
    requires cfg.Valid() && Completed(cfg, p) && Resends(cfg, p)
    ensures |ResendWave(cfg, p).undispatched| > 0 <==>
            exists k: nat :: 1 <= k <= |p.second| && k + cfg.concurrency - 1 < |Stale(p.first)|
                             && HasRun(Evidence(p.first + p.second[..k]), cfg.threshold)
  {
    var stale, streak := FirstWave(cfg, p).expired, FirstWave(cfg, p).streak;
    ExpiredIsStale(cfg, Start(cfg, p.order, 0), p.first, false);
    FinishedWave(cfg, p.order, 0, p.first, false);
    StaleIds(p.first);
    LeavesSomeIff(cfg, stale, streak, p.second, true);
    forall k: nat | k <= |p.second|
      ensures LatchedBy(cfg, ResendStart(cfg, p), p.second, k, true)
              <==> HasRun(Evidence(p.first + p.second[..k]), cfg.threshold)
    {
      LatchedByEvidence(cfg, p, k);
    }
    hide Completed, HasRun, Evidence, LatchedBy, Stale;
  }

  lemma LatchedByEvidence(cfg: Config, p: Pass, k: nat)
    requires cfg.Valid() && Completed(cfg, p) && Resends(cfg, p) && k <= |p.second|
    ensures LatchedBy(cfg, ResendStart(cfg, p), p.second, k, true)
            <==> HasRun(Evidence(p.first + p.second[..k]), cfg.threshold)
  {
    var w, second := Start(cfg, p.order, 0), p.second[..k];
    assert !HasRun([], cfg.threshold);
    PossibleMeansWellFormed(cfg, w, p.first, false);
    PossibleMeansWellFormed(cfg, ResendStart(cfg, p), p.second, true);
    StreakRefinesRuns(cfg, w, [], p.first, false);
    assert [] + Evidence(p.first) == Evidence(p.first);
    assert forall i :: 0 <= i < k ==> second[i] == p.second[i];
    StreakRefinesRuns(cfg, ResendStart(cfg, p), Evidence(p.first), second, true);
    EvidenceAppends(p.first, second);
  }

  /** Exactly when the summary falls short of the tables: some session went stale, and
      `threshold` network-like errors came in a row, in the first wave or, counted over both,
      before the resend wave had handed out its last record. */
  lemma ShortfallIff(cfg: Config, p: Pass)
    requires cfg.Valid() && Completed(cfg, p)
    ensures Shortfall(cfg, p) >= 0
    ensures Shortfall(cfg, p) > 0 <==>
            && Stale(p.first) != []
            && (|| HasRun(Evidence(p.first), cfg.threshold)
                || (p.reauthOk
                    && exists k: nat :: 1 <= k <= |p.second| && k + cfg.concurrency - 1 < |Stale(p.first)|
                                        && HasRun(Evidence(p.first + p.second[..k]), cfg.threshold)))
  {
    ReauthenticatesIff(cfg, p);
    ExpiredIsStale(cfg, Start(cfg, p.order, 0), p.first, false);
    hide HasRun, Evidence, Stale;
    if Resends(cfg, p) {
      ResendGivesUpIff(cfg, p);
    } else {
      NoResend(cfg, p);
    }
  }

  lemma NoResend(cfg: Config, p: Pass)
    requires Completed(cfg, p) && !Resends(cfg, p)
    ensures p.second == []
  {
  }

  lemma CommittedAreListed(cfg: Config, records: seq<nat>, streak: nat, log: seq<Completion>, final: bool)
    requires cfg.Valid() && Distinct(records) && Possible(cfg, Start(cfg, records, streak), log, final)
    ensures forall i :: 0 <= i < |log| ==> log[i].id in records
  {
    WaveIsPartitioned(cfg, records, streak, log, final);
    var w := Replay(cfg, Start(cfg, records, streak), log, final);
    forall i | 0 <= i < |log| ensures log[i].id in records {
      assert Ids(log)[i] in Elems(Ids(log));
      assert log[i].id in Elems(records[..Dispatched(records, w)]);
    }
  }

  lemma {:induction false} CommittedRowStatus(recs: Records, log: seq<Completion>, id: nat)
    requires id in recs && forall i :: 0 <= i < |log| ==> WellFormed(log[i].result)
    requires id in Ids(log) || recs[id].status in {Sent, Failed, Rejected}
    ensures id in CommitAll(recs, log) && CommitAll(recs, log)[id].status in {Sent, Failed, Rejected}
  {
    if log != [] {
      var before, x := log[..|log| - 1], log[|log| - 1];
      assert log == before + [x] && Ids(log) == Ids(before) + [x.id];
      CommitsAreLocal(recs, before);
      if x.id != id {
        CommittedRowStatus(recs, before, id);
      }
    }
  }

  lemma NoneIsPending(recs: Records, p: Pass)
    requires AllKnown(recs, p.first) && AllKnown(recs, p.second)
    ensures forall id :: id in Committed(p) ==>
                           id in Final(recs, p) && Final(recs, p)[id].status in {Sent, Failed, Rejected}
  {
    forall id | id in Committed(p)
      ensures id in Final(recs, p) && Final(recs, p)[id].status in {Sent, Failed, Rejected}
    {
      CommittedRowStatus(recs, p.first, id);
      CommittedRowStatus(CommitAll(recs, p.first), p.second, id);
    }
  }

  lemma StatusesPartition(recs: Records, ids: set<nat>)
    requires forall id :: id in ids ==> id in recs && recs[id].status in {Sent, Failed, Rejected}
    ensures StatusCount(recs, ids, Sent) + StatusCount(recs, ids, Failed) + StatusCount(recs, ids, Rejected) == |ids|
  {
    var a, b, c := WithStatusIn(recs, ids, Sent), WithStatusIn(recs, ids, Failed), WithStatusIn(recs, ids, Rejected);
    assert ids == a + b + c;
    assert a !! b && (a + b) !! c;
  }
}
