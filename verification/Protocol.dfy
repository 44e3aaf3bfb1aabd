/** The system around the upload pass: the tables outlive everything; passes run one at
    a time; the API may reset records at any moment, also in the middle of a pass; the
    process may die at any moment. A run is any sequence of enabled steps. */
module Protocol {
  import opened Basics
  import opened Results
  import opened Store
  import opened Waves
  import opened Passes

  datatype Phase =
    | Idle
      /** A wave at work; `posted` are the sends in flight whose request has gone out. */
    | Sending(final: bool, wave: Wave, posted: set<nat>)

  datatype System = System(recs: Records, phase: Phase)

  datatype Step =
    | Ingest(fileId: nat, first: nat, lines: seq<Line>)
    | BeginSend(order: seq<nat>)
    | Post(id: nat)
    | Settle(id: nat, result: UploadResult)
    | EndWave(reauthOk: bool)
    | Reset(ids: set<nat>)
    | Crash

  function Oversize(cfg: Config, s: System, id: nat): bool {
    id in s.recs && s.recs[id].line.envelopeBytes > cfg.maxLineBytes
  }

  ghost predicate Enabled(cfg: Config, s: System, step: Step) {
    match step
    case Ingest(f, first, lines) =>
      s.phase.Idle? && s.recs.Keys !! NewRecords(f, first, lines).Keys
    case BeginSend(order) =>
      s.phase.Idle? && IsSendList(s.recs, cfg.retryCap, order)
    case Post(id) =>
      s.phase.Sending? && id in s.phase.wave.inFlight && id !in s.phase.posted && !Oversize(cfg, s, id)
    case Settle(id, r) =>
      && s.phase.Sending? && id in s.phase.wave.inFlight && WellFormed(r)
      && (r.isLocalReject <==> Oversize(cfg, s, id))
      && (id in s.phase.posted || Oversize(cfg, s, id))
    case EndWave(_) =>
      s.phase.Sending? && s.phase.wave.inFlight == {}
    case Reset(_) => true
    case Crash => true
  }

  /** The one re-authentication: only after a first wave, with something stale to resend. */
  predicate GoesOn(phase: Phase, reauthOk: bool)
    requires phase.Sending?
  {
    !phase.final && phase.wave.expired != [] && !phase.wave.aborted && reauthOk
  }

  function Apply(cfg: Config, s: System, step: Step): System {
    match step
    case Ingest(f, first, lines) => s.(recs := s.recs + NewRecords(f, first, lines))
    case BeginSend(order) => s.(phase := Sending(false, Start(cfg, order, 0), {}))
    case Post(id) => if s.phase.Idle? then s else s.(phase := s.phase.(posted := s.phase.posted + {id}))
    case Settle(id, r) =>
      if s.phase.Idle? then s
      else System(CommitResult(s.recs, id, r),
                  s.phase.(wave := Complete(cfg, s.phase.wave, Completion(id, r), s.phase.final),
                           posted := s.phase.posted - {id}))
    case EndWave(reauthOk) =>
      if s.phase.Sending? && GoesOn(s.phase, reauthOk)
      then s.(phase := Sending(true, Start(cfg, s.phase.wave.expired, s.phase.wave.streak), {}))
      else s.(phase := Idle)
    case Reset(ids) => s.(recs := ResetAll(s.recs, ids))
    case Crash => s.(phase := Idle)
  }

  ghost predicate CanRun(cfg: Config, s: System, steps: seq<Step>)
    decreases steps
  {
    steps == [] || (Enabled(cfg, s, steps[0]) && CanRun(cfg, Apply(cfg, s, steps[0]), steps[1..]))
  }

  function Run(cfg: Config, s: System, steps: seq<Step>): System
    decreases steps
  {
    if steps == [] then s else Run(cfg, Apply(cfg, s, steps[0]), steps[1..])
  }

  const EMPTY := System(map[], Idle)

  // --- what every step keeps -------------------------------------------------------------

  predicate RowOk(cfg: Config, row: RecordRow) {
    && (row.status == Pending ==> row.attempts == 0)
    && row.attempts <= cfg.retryCap
    && (row.sentAt <==> row.status == Sent)
  }

  /** A record this pass may still post: it stays sendable until its result is in. */
  predicate MaySend(cfg: Config, recs: Records, id: nat) {
    id in recs && Sendable(recs[id], cfg.retryCap)
  }

  /** The record's envelope is small enough to be posted at all. */
  predicate FitsEnvelope(cfg: Config, recs: Records, id: nat) {
    id in recs && recs[id].line.envelopeBytes <= cfg.maxLineBytes
  }

  /** Queue, window and stale list share no record and repeat none. */
  ghost predicate Apart(w: Wave) {
    && Distinct(w.undispatched) && Distinct(w.expired)
    && (forall id :: id in w.undispatched ==> id !in w.inFlight && id !in w.expired)
    && (forall id :: id in w.expired ==> id !in w.inFlight)
  }

  ghost predicate WaveOk(cfg: Config, recs: Records, phase: Phase)
    requires phase.Sending?
  {
    var w := phase.wave;
    && Apart(w)
    && (phase.final ==> w.expired == [])
    && (forall id :: id in w.inFlight || id in w.undispatched || id in w.expired ==> MaySend(cfg, recs, id))
    && |w.inFlight| <= cfg.concurrency
    && phase.posted <= w.inFlight
    && (forall id :: id in phase.posted ==> FitsEnvelope(cfg, recs, id))
  }

  ghost predicate Inv(cfg: Config, s: System) {
    && (forall id :: id in s.recs ==> RowOk(cfg, s.recs[id]))
    && (s.phase.Sending? ==> WaveOk(cfg, s.recs, s.phase))
  }

  lemma StartOk(cfg: Config, recs: Records, order: seq<nat>, streak: nat, final: bool)
    requires cfg.Valid() && Distinct(order) && forall id :: id in order ==> MaySend(cfg, recs, id)
    ensures WaveOk(cfg, recs, Sending(final, Start(cfg, order, streak), {}))
  {
    var k := Min(cfg.concurrency, |order|);
    SizeOfElems(order[..k]);
    forall i, j | 0 <= i < k <= j < |order| ensures order[i] != order[j] {
    }
    assert Elems(order[k..]) !! Elems(order[..k]);
  }

  lemma NextInQueue(w: Wave)
    requires Apart(w) && w.undispatched != []
    ensures var next, rest := w.undispatched[0], w.undispatched[1..];
            && Distinct(rest) && next !in rest
            && (forall id :: id in w.undispatched <==> id == next || id in rest)
  {
    assert w.undispatched == [w.undispatched[0]] + w.undispatched[1..];
    forall i, j | 0 <= i < j < |w.undispatched[1..]| ensures w.undispatched[1..][i] != w.undispatched[1..][j] {
      assert w.undispatched[i + 1] != w.undispatched[j + 1];
    }
  }

  /** Settling one send keeps the three lists of the wave apart, and moves records only
      forward. */
  lemma SettleKeepsListsApart(cfg: Config, w: Wave, x: Completion, final: bool)
    requires Apart(w) && x.id in w.inFlight
    ensures var w' := Complete(cfg, w, x, final);
            && Apart(w')
            && (forall id :: id in w'.inFlight || id in w'.undispatched ==>
                               id != x.id && (id in w.inFlight || id in w.undispatched))
            && (forall id :: id in w'.expired ==> id in w.expired || (id == x.id && Resent(x.result, final)))
            && w.inFlight - {x.id} <= w'.inFlight && |w'.inFlight| <= |w.inFlight|
            && (forall id :: id in w'.undispatched ==> id in w.undispatched)
            && (forall id :: id in w.expired ==> id in w'.expired && id != x.id)
  {
    if w.undispatched != [] {
      NextInQueue(w);
    }
  }

  lemma SettleOk(cfg: Config, s: System, id: nat, r: UploadResult)
    requires cfg.Valid() && Inv(cfg, s) && Enabled(cfg, s, Step.Settle(id, r))
    ensures Inv(cfg, Apply(cfg, s, Step.Settle(id, r)))
  {
    hide Complete, Apart;
    assert MaySend(cfg, s.recs, id);
    SettleKeepsListsApart(cfg, s.phase.wave, Completion(id, r), s.phase.final);
    FinalWaveCollectsNothing(cfg, s.phase.wave, Completion(id, r));
    var recs' := CommitResult(s.recs, id, r);
    assert RowOk(cfg, recs'[id]);
    assert r.sessionExpired ==> MaySend(cfg, recs', id);
    assert WaveOk(cfg, recs', Apply(cfg, s, Step.Settle(id, r)).phase);
  }

  lemma FinalWaveCollectsNothing(cfg: Config, w: Wave, x: Completion)
    ensures Complete(cfg, w, x, true).expired == w.expired
  {
  }

  lemma ResetOk(cfg: Config, s: System, ids: set<nat>)
    requires Inv(cfg, s)
    ensures Inv(cfg, Apply(cfg, s, Reset(ids)))
  {
    var s' := Apply(cfg, s, Reset(ids));
    assert forall id :: MaySend(cfg, s.recs, id) ==> MaySend(cfg, s'.recs, id);
  }

  lemma StepKeepsInv(cfg: Config, s: System, step: Step)
    requires cfg.Valid() && Inv(cfg, s) && Enabled(cfg, s, step)
    ensures Inv(cfg, Apply(cfg, s, step))
  {
    match step
    case Ingest(f, first, lines) =>
    case BeginSend(order) => StartOk(cfg, s.recs, order, 0, false);
    case Post(id) =>
    case Settle(id, r) => SettleOk(cfg, s, id, r);
    case EndWave(ok) =>
      if GoesOn(s.phase, ok) {
        StartOk(cfg, s.recs, s.phase.wave.expired, s.phase.wave.streak, true);
      }
    case Reset(ids) => ResetOk(cfg, s, ids);
    case Crash =>
  }

  lemma {:induction false} RunKeepsInv(cfg: Config, s: System, steps: seq<Step>)
    requires cfg.Valid() && Inv(cfg, s) && CanRun(cfg, s, steps)
    ensures Inv(cfg, Run(cfg, s, steps))
    decreases steps
  {
    if steps != [] {
      StepKeepsInv(cfg, s, steps[0]);
      RunKeepsInv(cfg, Apply(cfg, s, steps[0]), steps[1..]);
    }
  }

  /** In every state any run from an empty database can reach: a pending record has no
      attempts, none exceeds the cap, a sending time marks the sent ones, and at most
      `concurrency` posts are out without a committed result. */
  lemma ReachableStates(cfg: Config, steps: seq<Step>)
    requires cfg.Valid() && CanRun(cfg, EMPTY, steps)
    ensures var s := Run(cfg, EMPTY, steps);
            && Inv(cfg, s)
            && (forall id :: id in s.recs ==> s.recs[id].attempts <= cfg.retryCap
                                              && (s.recs[id].status == Pending ==> s.recs[id].attempts == 0)
                                              && (s.recs[id].sentAt <==> s.recs[id].status == Sent))
            && (s.phase.Sending? ==> |s.phase.posted| <= cfg.concurrency)
  {
    RunKeepsInv(cfg, EMPTY, steps);
    var s := Run(cfg, EMPTY, steps);
    if s.phase.Sending? {
      SubsetSize(s.phase.posted, s.phase.wave.inFlight);
    }
  }

  /** The statuses a record goes through: a result takes it from pending, or from failed with
      attempts left, to sent, failed or rejected; a manual reset from failed or rejected back to
      pending; nothing else changes it, and nothing takes it out of sent. */
  lemma StatusGraph(cfg: Config, s: System, step: Step, id: nat)
    requires cfg.Valid() && Inv(cfg, s) && Enabled(cfg, s, step) && id in s.recs
    ensures id in Apply(cfg, s, step).recs
    ensures var row, row' := s.recs[id], Apply(cfg, s, step).recs[id];
            || row' == row
            || (step.Settle? && step.id == id && (row.status == Pending || row.status == Failed)
                && row.attempts < cfg.retryCap && row'.status == step.result.status
                && row'.status in {Sent, Failed, Rejected}
                && row'.attempts == row.attempts + (if step.result.isNetworkError then 0 else 1))
            || (step.Reset? && id in step.ids && (row.status == Failed || row.status == Rejected)
                && row'.status == Pending && row'.attempts == 0)
  {
    if step.Settle? {
      assert MaySend(cfg, s.recs, step.id);
    }
  }

  // --- at most once after acknowledgement -----------------------------------------------------

  lemma SentRowIsFrozen(cfg: Config, s: System, step: Step, id: nat)
    requires cfg.Valid() && Inv(cfg, s) && Enabled(cfg, s, step)
    requires id in s.recs && s.recs[id].status == Sent
    ensures step != Post(id) && id in Apply(cfg, s, step).recs && Apply(cfg, s, step).recs[id] == s.recs[id]
  {
    if s.phase.Sending? {
      assert !MaySend(cfg, s.recs, id);
    }
  }

  /** Once a record is committed as sent, its row never changes again and no post of it
      ever starts, in any continuation: passes, resets and crashes alike. */
  lemma {:induction false} SentIsForever(cfg: Config, s: System, steps: seq<Step>, id: nat)
    requires cfg.Valid() && Inv(cfg, s) && CanRun(cfg, s, steps)
    requires id in s.recs && s.recs[id].status == Sent
    ensures Post(id) !in steps
    ensures id in Run(cfg, s, steps).recs && Run(cfg, s, steps).recs[id] == s.recs[id]
    decreases steps
  {
    if steps != [] {
      SentRowIsFrozen(cfg, s, steps[0], id);
      StepKeepsInv(cfg, s, steps[0]);
      SentIsForever(cfg, Apply(cfg, s, steps[0]), steps[1..], id);
      assert steps == [steps[0]] + steps[1..];
    }
  }

  // --- at most twice in a pass -----------------------------------------------------------------

  /** The pass may post `id` again although it did once: only through the stale list. */
  ghost predicate Reposts(s: System, id: nat) {
    s.phase.Sending? && (id in s.phase.wave.undispatched
                         || (id in s.phase.wave.inFlight && id !in s.phase.posted)
                         || id in s.phase.wave.expired)
  }

  predicate StaleResult(step: Step, id: nat) {
    step.Settle? && step.id == id && step.result.sessionExpired
  }

  lemma OnlyStaleReposts(cfg: Config, s: System, step: Step, id: nat)
    requires cfg.Valid() && Inv(cfg, s) && Enabled(cfg, s, step)
    requires !Reposts(s, id) && !step.BeginSend? && !StaleResult(step, id)
    ensures step != Post(id) && !Reposts(Apply(cfg, s, step), id)
  {
    if s.phase.Sending? {
      hide Complete, Start, Apart;
      match step
      case Settle(x, r) => SettleKeepsListsApart(cfg, s.phase.wave, Completion(x, r), s.phase.final);
      case EndWave(ok) => StartHoldsTheList(cfg, s.phase.wave.expired, s.phase.wave.streak);
      case _ =>
    }
  }

  lemma StartHoldsTheList(cfg: Config, records: seq<nat>, streak: nat)
    ensures var w := Start(cfg, records, streak);
            w.expired == [] && forall id :: id in w.undispatched || id in w.inFlight <==> id in records
  {
    var k := Min(cfg.concurrency, |records|);
    assert records == records[..k] + records[k..];
  }

  /** Between two posts of one record in one pass its result came back as a stale session. */
  lemma {:induction false} RepostNeedsStaleResult(cfg: Config, s: System, steps: seq<Step>, id: nat, j: nat)
    requires cfg.Valid() && Inv(cfg, s) && CanRun(cfg, s, steps)
    requires forall i :: 0 <= i < |steps| ==> !steps[i].BeginSend?
    requires !Reposts(s, id) && j < |steps| && steps[j] == Post(id)
    ensures exists i :: 0 <= i < j && StaleResult(steps[i], id)
    decreases steps
  {
    if StaleResult(steps[0], id) {
      assert j > 0;
    } else {
      OnlyStaleReposts(cfg, s, steps[0], id);
      StepKeepsInv(cfg, s, steps[0]);
      RepostNeedsStaleResult(cfg, Apply(cfg, s, steps[0]), steps[1..], id, j - 1);
      var i :| 0 <= i < j - 1 && StaleResult(steps[1..][i], id);
      assert StaleResult(steps[i + 1], id);
    }
  }

  /** How often this pass may still post `id`. */
  ghost function Budget(s: System, id: nat): nat {
    if s.phase.Idle? then 0
    else
      var w := s.phase.wave;
      if id in w.undispatched || (id in w.inFlight && id !in s.phase.posted) then (if s.phase.final then 1 else 2)
      else if (id in w.inFlight || id in w.expired) && !s.phase.final then 1
      else 0
  }

  lemma SettleShrinks(cfg: Config, s: System, x: nat, r: UploadResult, id: nat)
    requires Inv(cfg, s) && Enabled(cfg, s, Step.Settle(x, r))
    ensures Budget(Apply(cfg, s, Step.Settle(x, r)), id) <= Budget(s, id)
  {
    SettleKeepsListsApart(cfg, s.phase.wave, Completion(x, r), s.phase.final);
    hide Complete, CommitResult, RowOk, MaySend, WellFormed, Oversize, Distinct;
  }

  lemma EndWaveShrinks(cfg: Config, s: System, ok: bool, id: nat)
    requires Inv(cfg, s) && Enabled(cfg, s, EndWave(ok))
    ensures Budget(Apply(cfg, s, EndWave(ok)), id) <= Budget(s, id)
  {
    StartHoldsTheList(cfg, s.phase.wave.expired, s.phase.wave.streak);
    hide Start, RowOk, MaySend, Distinct;
  }

  lemma BudgetShrinks(cfg: Config, s: System, step: Step, id: nat)
    requires cfg.Valid() && Inv(cfg, s) && Enabled(cfg, s, step) && !step.BeginSend?
    ensures Budget(Apply(cfg, s, step), id) + (if step == Post(id) then 1 else 0) <= Budget(s, id)
  {
    match step
    case Settle(x, r) =>
      hide Apply, Budget, Inv, Enabled;
      SettleShrinks(cfg, s, x, r, id);
    case EndWave(ok) =>
      hide Apply, Budget, Inv, Enabled;
      EndWaveShrinks(cfg, s, ok, id);
    case _ =>
  }

  function Posts(steps: seq<Step>, id: nat): nat {
    if steps == [] then 0 else (if steps[0] == Post(id) then 1 else 0) + Posts(steps[1..], id)
  }

  lemma {:induction false} PostsFitBudget(cfg: Config, s: System, steps: seq<Step>, id: nat)
    requires cfg.Valid() && Inv(cfg, s) && CanRun(cfg, s, steps)
    requires forall i :: 0 <= i < |steps| ==> !steps[i].BeginSend?
    ensures Posts(steps, id) <= Budget(s, id)
    decreases steps
  {
    if steps != [] {
      BudgetShrinks(cfg, s, steps[0], id);
      StepKeepsInv(cfg, s, steps[0]);
      PostsFitBudget(cfg, Apply(cfg, s, steps[0]), steps[1..], id);
    }
  }

  /** Within a pass, crashed or not, a record is posted at most twice. */
  lemma PostedAtMostTwice(cfg: Config, s: System, order: seq<nat>, steps: seq<Step>, id: nat)
    requires cfg.Valid() && Inv(cfg, s) && CanRun(cfg, s, [BeginSend(order)] + steps)
    requires forall i :: 0 <= i < |steps| ==> !steps[i].BeginSend?
    ensures Posts(steps, id) <= 2
  {
    var all := [BeginSend(order)] + steps;
    assert all[1..] == steps;
    StepKeepsInv(cfg, s, all[0]);
    PostsFitBudget(cfg, Apply(cfg, s, all[0]), steps, id);
  }

  lemma PostedIsDone(cfg: Config, s: System, id: nat)
    requires cfg.Valid() && Inv(cfg, s) && Enabled(cfg, s, Post(id))
    ensures !Reposts(Apply(cfg, s, Post(id)), id)
  {
  }

  /** And twice only if, in between, the first post came back as a stale session. */
  lemma PostedTwiceOnlyWhenStale(cfg: Config, s: System, steps: seq<Step>, id: nat, i: nat, j: nat)
    requires cfg.Valid() && Inv(cfg, s) && CanRun(cfg, s, steps)
    requires forall k :: 0 <= k < |steps| ==> !steps[k].BeginSend?
    requires i < j < |steps| && steps[i] == Post(id) && steps[j] == Post(id)
    ensures exists k :: i < k < j && StaleResult(steps[k], id)
  {
    hide Enabled, Apply, Reposts, Inv;
    RunSplits(cfg, s, steps, i);
    RunKeepsInv(cfg, s, steps[..i]);
    var before, rest := Run(cfg, s, steps[..i]), steps[i + 1..];
    assert steps[i..][0] == Post(id) && steps[i..][1..] == rest;
    StepKeepsInv(cfg, before, Post(id));
    PostedIsDone(cfg, before, id);
    assert rest[j - i - 1] == Post(id);
    RepostNeedsStaleResult(cfg, Apply(cfg, before, Post(id)), rest, id, j - i - 1);
    var k :| 0 <= k < j - i - 1 && StaleResult(rest[k], id);
    assert StaleResult(steps[i + 1 + k], id);
  }

  lemma {:induction false} RunSplits(cfg: Config, s: System, steps: seq<Step>, n: nat)
    requires n <= |steps| && CanRun(cfg, s, steps)
    ensures CanRun(cfg, s, steps[..n]) && CanRun(cfg, Run(cfg, s, steps[..n]), steps[n..])
    ensures Run(cfg, s, steps) == Run(cfg, Run(cfg, s, steps[..n]), steps[n..])
    decreases steps
  {
    if n == 0 {
      assert steps[0..] == steps;
    } else {
      RunSplits(cfg, Apply(cfg, s, steps[0]), steps[1..], n - 1);
      assert steps[..n][1..] == steps[1..][..n - 1];
      assert steps[n..] == steps[1..][n - 1..];
    }
  }

  // --- more than once, and why --------------------------------------------------------------------

  /** The post of `id` is out and its result not yet committed, or it was acknowledged. */
  ghost predicate Settled(s: System, id: nat) {
    id in s.recs && (s.recs[id].status == Sent
                     || (s.phase.Sending? && id in s.phase.wave.inFlight && id in s.phase.posted))
  }

  /** Over any run at all, a record is posted again only if in between the process died
      or its result was committed as something other than sent. */
  lemma {:induction false} PostedAgainOnlyIf(cfg: Config, s: System, steps: seq<Step>, id: nat, j: nat)
    requires cfg.Valid() && Inv(cfg, s) && CanRun(cfg, s, steps)
    requires Settled(s, id) && j < |steps| && steps[j] == Post(id)
    ensures exists i :: 0 <= i < j && (steps[i] == Crash || NotAcknowledged(steps[i], id))
    decreases steps
  {
    var step := steps[0];
    if step != Crash && !NotAcknowledged(step, id) {
      SettledStays(cfg, s, step, id);
      StepKeepsInv(cfg, s, step);
      PostedAgainOnlyIf(cfg, Apply(cfg, s, step), steps[1..], id, j - 1);
      var i :| 0 <= i < j - 1 && (steps[1..][i] == Crash || NotAcknowledged(steps[1..][i], id));
      assert steps[i + 1] == steps[1..][i];
    } else {
      assert j != 0;
    }
  }

  predicate NotAcknowledged(step: Step, id: nat) {
    step.Settle? && step.id == id && step.result.status != Sent
  }

  lemma SettledStays(cfg: Config, s: System, step: Step, id: nat)
    requires cfg.Valid() && Inv(cfg, s) && Enabled(cfg, s, step) && Settled(s, id)
    requires step != Crash && !NotAcknowledged(step, id)
    ensures step != Post(id) && Settled(Apply(cfg, s, step), id)
  {
    if s.recs[id].status == Sent {
      SentRowIsFrozen(cfg, s, step, id);
    }
  }

  const ONE_LINE := [Line("x", 1)]

  /** The first post may have been accepted: dying before the commit posts it again. */
  const POSTED_TWICE: seq<Step> :=
    [Ingest(0, 0, ONE_LINE), BeginSend([0]), Post(0), Crash, BeginSend([0]), Post(0)]

  lemma CrashCanPostTwice(cfg: Config)
    requires cfg.Valid() && cfg.maxLineBytes >= 1
    ensures CanRun(cfg, EMPTY, POSTED_TWICE) && POSTED_TWICE[2] == POSTED_TWICE[5] == Post(0)
  {
    var recs := NewRecords(0, 0, ONE_LINE);
    assert EMPTY.recs + recs == recs;
    assert recs[0] == NewRecord(0, 1, Line("x", 1));
    assert IsSendList(recs, cfg.retryCap, [0]);
    var k := Min(cfg.concurrency, 1);
    assert [0][..k] == [0];
    var sending := System(recs, Sending(false, Start(cfg, [0], 0), {}));
    var idle := System(recs, Idle);
    var posted := Apply(cfg, sending, Post(0));
    assert Apply(cfg, EMPTY, POSTED_TWICE[0]) == idle;
    assert 0 in sending.phase.wave.inFlight;
    assert CanRun(cfg, posted, []);
    assert CanRun(cfg, sending, [Post(0)]) by { assert [Post(0)][1..] == []; }
    assert CanRun(cfg, idle, [BeginSend([0]), Post(0)]) by { assert [BeginSend([0]), Post(0)][1..] == [Post(0)]; }
    assert CanRun(cfg, posted, POSTED_TWICE[3..]) by { assert POSTED_TWICE[3..][1..] == [BeginSend([0]), Post(0)]; }
    assert CanRun(cfg, sending, POSTED_TWICE[2..]) by { assert POSTED_TWICE[2..][1..] == POSTED_TWICE[3..]; }
    assert CanRun(cfg, idle, POSTED_TWICE[1..]) by { assert POSTED_TWICE[1..][1..] == POSTED_TWICE[2..]; }
  }

  // --- the pass the program runs is a run of this system -------------------------------------------

  lemma {:induction false} RunAppends(cfg: Config, s: System, a: seq<Step>, b: seq<Step>)
    requires CanRun(cfg, s, a) && CanRun(cfg, Run(cfg, s, a), b)
    ensures CanRun(cfg, s, a + b) && Run(cfg, s, a + b) == Run(cfg, Run(cfg, s, a), b)
    decreases a
  {
    if a == [] {
      assert a + b == b;
    } else {
      RunAppends(cfg, Apply(cfg, s, a[0]), a[1..], b);
      assert (a + b)[1..] == a[1..] + b;
    }
  }

  /** Each completion as its post, if it made one, and its commit. */
  function WaveSteps(log: seq<Completion>): seq<Step> {
    if log == [] then []
    else
      var x := log[|log| - 1];
      WaveSteps(log[..|log| - 1]) + (if x.result.isLocalReject then [] else [Post(x.id)]) + [Settle(x.id, x.result)]
  }

  lemma CompletionIsARun(cfg: Config, s: System, x: Completion)
    requires s.phase.Sending? && s.phase.posted == {} && x.id in s.phase.wave.inFlight && x.id in s.recs
    requires Fits(x.result, s.recs[x.id].line.envelopeBytes, cfg.maxLineBytes)
    ensures var steps := (if x.result.isLocalReject then [] else [Post(x.id)]) + [Step.Settle(x.id, x.result)];
            && CanRun(cfg, s, steps)
            && Run(cfg, s, steps) == System(CommitResult(s.recs, x.id, x.result),
                                            Sending(s.phase.final, Complete(cfg, s.phase.wave, x, s.phase.final), {}))
  {
    hide Complete;
    var settle := Step.Settle(x.id, x.result);
    assert Completion(x.id, x.result) == x;
    if x.result.isLocalReject {
      OneStep(cfg, s, settle);
      assert s.phase.posted - {x.id} == {};
      assert [] + [settle] == [settle];
    } else {
      var s' := Apply(cfg, s, Post(x.id));
      assert s'.phase.posted - {x.id} == {};
      OneStep(cfg, s, Post(x.id));
      OneStep(cfg, s', settle);
      RunAppends(cfg, s, [Post(x.id)], [settle]);
    }
  }

  lemma {:induction false} WaveIsARun(cfg: Config, recs: Records, w: Wave, log: seq<Completion>, final: bool)
    requires Possible(cfg, w, log, final) && OutcomesFit(cfg, recs, log)
    ensures var s := System(recs, Sending(final, w, {}));
            && CanRun(cfg, s, WaveSteps(log))
            && Run(cfg, s, WaveSteps(log))
               == System(CommitAll(recs, log), Sending(final, Replay(cfg, w, log, final), {}))
  {
    if log != [] {
      hide Complete, CommitResult, Enabled, Apply;
      var s := System(recs, Sending(final, w, {}));
      var before, x := log[..|log| - 1], log[|log| - 1];
      WaveIsARun(cfg, recs, w, before, final);
      CommitsAreLocal(recs, before);
      CompletionIsARun(cfg, Run(cfg, s, WaveSteps(before)), x);
      var steps := (if x.result.isLocalReject then [] else [Post(x.id)]) + [Step.Settle(x.id, x.result)];
      RunAppends(cfg, s, WaveSteps(before), steps);
      assert WaveSteps(log) == WaveSteps(before) + steps;
    }
  }

  function PassSteps(cfg: Config, p: Pass): seq<Step> {
    [BeginSend(p.order)] + WaveSteps(p.first) + [EndWave(p.reauthOk)]
    + (if Resends(cfg, p) then WaveSteps(p.second) + [EndWave(false)] else [])
  }

  /** A completed pass of the program, over the send list it read, is a run of this system
      between two idle states: everything proved of runs is proved of it. */
  lemma PassIsARun(cfg: Config, recs: Records, p: Pass)
    requires cfg.Valid() && Completed(cfg, p) && IsSendList(recs, cfg.retryCap, p.order)
    requires OutcomesFit(cfg, recs, p.first) && OutcomesFit(cfg, recs, p.second)
    ensures CanRun(cfg, System(recs, Idle), PassSteps(cfg, p))
    ensures Run(cfg, System(recs, Idle), PassSteps(cfg, p)) == System(Final(recs, p), Idle)
  {
    hide Start, Replay, Possible, WaveSteps, OutcomesFit, IsSendList;
    var idle := System(recs, Idle);
    OneStep(cfg, idle, BeginSend(p.order));
    WaveIsARun(cfg, recs, Start(cfg, p.order, 0), p.first, false);
    RunAppends(cfg, idle, [BeginSend(p.order)], WaveSteps(p.first));
    var mid := System(CommitAll(recs, p.first), Sending(false, FirstWave(cfg, p), {}));
    OneStep(cfg, mid, EndWave(p.reauthOk));
    var upTo := [BeginSend(p.order)] + WaveSteps(p.first) + [EndWave(p.reauthOk)];
    RunAppends(cfg, idle, [BeginSend(p.order)] + WaveSteps(p.first), [EndWave(p.reauthOk)]);
    if Resends(cfg, p) {
      CommitsAreLocal(recs, p.first);
      FitsStill(cfg, recs, p.first, p.second);
      WaveIsARun(cfg, mid.recs, ResendStart(cfg, p), p.second, true);
      var last := System(Final(recs, p), Sending(true, ResendWave(cfg, p), {}));
      OneStep(cfg, last, EndWave(false));
      var again := System(mid.recs, Sending(true, ResendStart(cfg, p), {}));
      RunAppends(cfg, again, WaveSteps(p.second), [EndWave(false)]);
      RunAppends(cfg, idle, upTo, WaveSteps(p.second) + [EndWave(false)]);
    } else {
      assert p.second == [] && upTo + [] == upTo;
    }
  }

  lemma OneStep(cfg: Config, s: System, step: Step)
    ensures CanRun(cfg, s, [step]) <==> Enabled(cfg, s, step)
    ensures Run(cfg, s, [step]) == Apply(cfg, s, step)
  {
    assert [step][1..] == [];
  }

  lemma FitsStill(cfg: Config, recs: Records, first: seq<Completion>, log: seq<Completion>)
    requires OutcomesFit(cfg, recs, log)
    ensures OutcomesFit(cfg, CommitAll(recs, first), log)
  {
    CommitsAreLocal(recs, first);
  }

  // --- the retry budget ----------------------------------------------------------------------------

  /** Outcomes of `id` that burn an attempt. */
  function Burned(steps: seq<Step>, id: nat): nat {
    if steps == [] then 0
    else
      (if steps[0].Settle? && steps[0].id == id && !steps[0].result.isNetworkError then 1 else 0)
      + Burned(steps[1..], id)
  }

  lemma AttemptsOfOneStep(cfg: Config, s: System, step: Step, id: nat)
    requires Enabled(cfg, s, step) && id in s.recs && !(step.Reset? && id in step.ids)
    ensures id in Apply(cfg, s, step).recs
    ensures Apply(cfg, s, step).recs[id].attempts == s.recs[id].attempts + Burned([step], id)
  {
    assert Burned([step][1..], id) == 0;
  }

  /** Between manual resets the attempts counter is exactly the number of counted
      outcomes, so there are at most `retryCap` of them. */
  lemma {:induction false} BurnedAreCounted(cfg: Config, s: System, steps: seq<Step>, id: nat)
    requires cfg.Valid() && Inv(cfg, s) && CanRun(cfg, s, steps) && id in s.recs
    requires forall i :: 0 <= i < |steps| ==> !(steps[i].Reset? && id in steps[i].ids)
    ensures id in Run(cfg, s, steps).recs
    ensures Run(cfg, s, steps).recs[id].attempts == s.recs[id].attempts + Burned(steps, id)
    ensures s.recs[id].attempts + Burned(steps, id) <= cfg.retryCap
    decreases steps
  {
    if steps != [] {
      hide Enabled, Apply;
      StepKeepsInv(cfg, s, steps[0]);
      AttemptsOfOneStep(cfg, s, steps[0], id);
      assert Burned([steps[0]], id) + Burned(steps[1..], id) == Burned(steps, id) by { assert [steps[0]][1..] == []; }
      BurnedAreCounted(cfg, Apply(cfg, s, steps[0]), steps[1..], id);
    }
  }

  /** Steps of passes that met nothing but network-like errors. */
  predicate OutageOnly(step: Step) {
    !step.Ingest? && !step.Reset? && (step.Settle? ==> step.result.isNetworkError)
  }

  lemma OutageStep(cfg: Config, s: System, step: Step)
    requires cfg.Valid() && Inv(cfg, s) && Enabled(cfg, s, step) && OutageOnly(step)
    ensures Apply(cfg, s, step).recs.Keys == s.recs.Keys
    ensures forall id :: id in s.recs ==>
                           && Apply(cfg, s, step).recs[id].attempts == s.recs[id].attempts
                           && (Sendable(Apply(cfg, s, step).recs[id], cfg.retryCap)
                               <==> Sendable(s.recs[id], cfg.retryCap))
  {
    if step.Settle? {
      assert MaySend(cfg, s.recs, step.id);
    }
  }

  /** Any number of passes during an outage, crashing or not, leave every record's
      attempts, and whether it will be sent again, as they were. */
  lemma {:induction false} OutagesAreFree(cfg: Config, s: System, steps: seq<Step>)
    requires cfg.Valid() && Inv(cfg, s) && CanRun(cfg, s, steps)
    requires forall i :: 0 <= i < |steps| ==> OutageOnly(steps[i])
    ensures Run(cfg, s, steps).recs.Keys == s.recs.Keys
    ensures forall id :: id in s.recs ==>
                           && Run(cfg, s, steps).recs[id].attempts == s.recs[id].attempts
                           && (Sendable(Run(cfg, s, steps).recs[id], cfg.retryCap)
                               <==> Sendable(s.recs[id], cfg.retryCap))
    decreases steps
  {
    if steps != [] {
      StepKeepsInv(cfg, s, steps[0]);
      OutageStep(cfg, s, steps[0]);
      OutagesAreFree(cfg, Apply(cfg, s, steps[0]), steps[1..]);
    }
  }
}
