/** When a record can still be posted: from any state the system can be in, exactly as long
    as no sent result is committed for it. */
module Reposting {
  import opened Basics
  import opened Results
  import opened Store
  import opened Waves
  import opened Passes
  import opened Protocol

  // --- the next pass can reach every sendable record -----------------------------------------

  /** Any records can be put into sending order. */
  lemma SendOrder(recs: Records, ids: set<nat>) returns (s: seq<nat>)
    requires ids <= recs.Keys
    ensures Distinct(s) && InOrder(recs, s) && forall x :: x in s <==> x in ids
    decreases ids
  {
    if ids == {} {
      return [];
    }
    var id :| id in ids;
    var rest := SendOrder(recs, ids - {id});
    InsertKeepsOrder(recs, rest, id);
    s := Insert(recs, rest, id);
  }

  /** The outcome that keeps a wave going: a local reject if the envelope is too big, else
      an acknowledgement. */
  function Answered(cfg: Config, recs: Records, id: nat): Completion {
    Completion(id, if FitsEnvelope(cfg, recs, id) then UploadResult(Sent)
                   else UploadResult(Rejected, isLocalReject := true))
  }

  ghost predicate AllAnswered(cfg: Config, recs: Records, log: seq<Completion>) {
    forall i :: 0 <= i < |log| ==> log[i].id in recs && log[i] == Answered(cfg, recs, log[i].id)
  }

  lemma {:induction false} AnsweredNeverAborts(cfg: Config, recs: Records, w: Wave, log: seq<Completion>)
    requires AllAnswered(cfg, recs, log) && !w.aborted
    ensures !Replay(cfg, w, log, false).aborted
  {
    if log != [] {
      var n := |log| - 1;
      assert log[n] == Answered(cfg, recs, log[n].id);
      AnsweredNeverAborts(cfg, recs, w, log[..n]);
    }
  }

  /** A first wave can be driven on until a given record of it is in flight. */
  lemma ReachWindow(cfg: Config, recs: Records, order: seq<nat>, id: nat, log: seq<Completion>)
    returns (log': seq<Completion>)
    requires cfg.Valid() && Distinct(order) && id in order && forall x :: x in order ==> x in recs
    requires Possible(cfg, Start(cfg, order, 0), log, false) && AllAnswered(cfg, recs, log) && id !in Ids(log)
    ensures Possible(cfg, Start(cfg, order, 0), log', false) && AllAnswered(cfg, recs, log')
    ensures id in Replay(cfg, Start(cfg, order, 0), log', false).inFlight
    decreases |order| - |log|
  {
    var start := Start(cfg, order, 0);
    var w := Replay(cfg, start, log, false);
    WaveIsPartitioned(cfg, order, 0, log, false);
    AnsweredNeverAborts(cfg, recs, start, log);
    hide Start, Replay, Possible, Answered, AllAnswered, Partitioned;
    if id in w.inFlight {
      return log;
    }
    Undispatched(cfg, order, w, log, id);
    var x :| x in w.inFlight;
    OneMoreAnswered(cfg, recs, order, log, x);
    var more := log + [Answered(cfg, recs, x)];
    IdsOneMore(log, Answered(cfg, recs, x));
    AnsweredId(cfg, recs, x);
    log' := ReachWindow(cfg, recs, order, id, more);
  }

  lemma AnsweredId(cfg: Config, recs: Records, id: nat)
    ensures Answered(cfg, recs, id).id == id && WellFormed(Answered(cfg, recs, id).result)
  {
  }

  lemma OneMoreAnswered(cfg: Config, recs: Records, order: seq<nat>, log: seq<Completion>, x: nat)
    requires cfg.Valid() && Distinct(order) && forall y :: y in order ==> y in recs
    requires Possible(cfg, Start(cfg, order, 0), log, false) && AllAnswered(cfg, recs, log)
    requires x in Replay(cfg, Start(cfg, order, 0), log, false).inFlight
    ensures var more := log + [Answered(cfg, recs, x)];
            && Possible(cfg, Start(cfg, order, 0), more, false) && AllAnswered(cfg, recs, more)
            && |more| <= |order|
  {
    hide Start, Replay, Possible;
    var next := Answered(cfg, recs, x);
    var more := log + [next];
    ReplayOneMore(cfg, Start(cfg, order, 0), log, next, false);
    CommittedAreListed(cfg, order, 0, more, false);
    assert more[|log|] == next;
    forall i | 0 <= i < |more| ensures more[i].id in recs && more[i] == Answered(cfg, recs, more[i].id) {
      if i < |log| {
        assert more[i] == log[i];
      }
    }
    WaveTerminates(cfg, order, 0, more, false, UploadResult(Sent));
  }

  lemma Undispatched(cfg: Config, order: seq<nat>, w: Wave, log: seq<Completion>, id: nat)
    requires cfg.Valid() && Partitioned(cfg, order, w, log) && !w.aborted
    requires id in order && id !in Ids(log) && id !in w.inFlight
    ensures w.inFlight != {}
  {
    assert order[..|order|] == order;
    assert id in Elems(order) && id !in Elems(Ids(log));
    assert w.inFlight == {} ==> w.undispatched == [];
  }

  /** Nobody retries anything by hand. */
  ghost predicate Unattended(steps: seq<Step>) {
    forall step :: step in steps ==> !step.Reset?
  }

  /** The post of `id` is out, its row as it was. */
  ghost predicate Out(s: System, id: nat, row: RecordRow) {
    && s.phase.Sending? && id in s.phase.wave.inFlight && id in s.phase.posted
    && id in s.recs && s.recs[id] == row
  }

  /** From rest, a pass can post any sendable record that fits. */
  lemma NextPassPosts(cfg: Config, recs: Records, id: nat) returns (steps: seq<Step>)
    requires cfg.Valid() && MaySend(cfg, recs, id) && FitsEnvelope(cfg, recs, id)
    ensures CanRun(cfg, System(recs, Idle), steps) && Post(id) in steps && Unattended(steps)
    ensures Out(Run(cfg, System(recs, Idle), steps), id, recs[id])
  {
    var order := SendOrder(recs, set x | x in recs && Sendable(recs[x], cfg.retryCap));
    assert IsSendList(recs, cfg.retryCap, order);
    var log := ReachWindow(cfg, recs, order, id, []);
    NotYetSettled(cfg, order, log, id);
    hide IsSendList, Possible, Start, Replay, AllAnswered, Answered;
    AnsweredFits(cfg, recs, log);
    var idle, start := System(recs, Idle), Start(cfg, order, 0);
    var begun := System(recs, Sending(false, start, {}));
    OneStep(cfg, idle, BeginSend(order));
    WaveIsARun(cfg, recs, start, log, false);
    RunAppends(cfg, idle, [BeginSend(order)], WaveSteps(log));
    var reached := Run(cfg, begun, WaveSteps(log));
    CommitsAreLocal(recs, log);
    OneStep(cfg, reached, Post(id));
    steps := [BeginSend(order)] + WaveSteps(log);
    RunAppends(cfg, idle, steps, [Post(id)]);
    NoResets(log);
    steps := steps + [Post(id)];
    assert steps[|steps| - 1] == Post(id);
  }

  lemma NotYetSettled(cfg: Config, order: seq<nat>, log: seq<Completion>, id: nat)
    requires Distinct(order) && Possible(cfg, Start(cfg, order, 0), log, false)
    requires id in Replay(cfg, Start(cfg, order, 0), log, false).inFlight
    ensures id !in Ids(log)
  {
    WaveIsPartitioned(cfg, order, 0, log, false);
    MemberOfElems(Ids(log), id);
  }

  lemma AnsweredFits(cfg: Config, recs: Records, log: seq<Completion>)
    requires AllAnswered(cfg, recs, log)
    ensures OutcomesFit(cfg, recs, log)
  {
    forall i | 0 <= i < |log|
      ensures log[i].id in recs && Fits(log[i].result, recs[log[i].id].line.envelopeBytes, cfg.maxLineBytes)
    {
      SomeOutcomes(recs[log[i].id].line.envelopeBytes, cfg.maxLineBytes);
      hide Fits;
      assert log[i] == Answered(cfg, recs, log[i].id);
    }
  }

  lemma {:induction false} NoResets(log: seq<Completion>)
    ensures forall step :: step in WaveSteps(log) ==> !step.Reset?
  {
    if log != [] {
      NoResets(log[..|log| - 1]);
    }
  }

  // --- exactly when a record is posted again ---------------------------------------------------

  lemma LineStays(cfg: Config, s: System, step: Step, id: nat)
    requires Enabled(cfg, s, step) && id in s.recs
    ensures id in Apply(cfg, s, step).recs && Apply(cfg, s, step).recs[id].line == s.recs[id].line
  {
  }

  lemma {:induction false} OversizeIsNeverPosted(cfg: Config, s: System, steps: seq<Step>, id: nat)
    requires id in s.recs && !FitsEnvelope(cfg, s.recs, id) && CanRun(cfg, s, steps)
    ensures Post(id) !in steps
    decreases steps
  {
    if steps != [] {
      LineStays(cfg, s, steps[0], id);
      OversizeIsNeverPosted(cfg, Apply(cfg, s, steps[0]), steps[1..], id);
      assert steps == [steps[0]] + steps[1..];
    }
  }

  /** A record can still be posted in some continuation, with crashes, resets and passes,
      exactly if its envelope fits and its row does not say sent. */
  lemma PostableIff(cfg: Config, s: System, id: nat)
    requires cfg.Valid() && Inv(cfg, s) && id in s.recs
    ensures (exists steps :: CanRun(cfg, s, steps) && Post(id) in steps)
            <==> s.recs[id].status != Sent && FitsEnvelope(cfg, s.recs, id)
  {
    if !FitsEnvelope(cfg, s.recs, id) {
      forall steps | CanRun(cfg, s, steps) ensures Post(id) !in steps {
        OversizeIsNeverPosted(cfg, s, steps, id);
      }
    } else if s.recs[id].status == Sent {
      forall steps | CanRun(cfg, s, steps) ensures Post(id) !in steps {
        SentIsForever(cfg, s, steps, id);
      }
    } else {
      var restart := [Crash, Reset({id})];
      var s' := System(ResetAll(s.recs, {id}), Idle);
      assert restart[1..] == [Reset({id})];
      OneStep(cfg, Apply(cfg, s, Crash), Reset({id}));
      assert CanRun(cfg, s, restart) && Run(cfg, s, restart) == s';
      var steps := NextPassPosts(cfg, s'.recs, id);
      RunAppends(cfg, s, restart, steps);
      assert CanRun(cfg, s, restart + steps) && Post(id) in restart + steps;
    }
  }

  /** Dying with a post out posts it again by itself: the next pass can, with no reset. */
  lemma DyingReposts(cfg: Config, s: System, id: nat)
    requires cfg.Valid() && Inv(cfg, s) && s.phase.Sending? && id in s.phase.posted
    ensures exists steps :: CanRun(cfg, s, [Crash] + steps) && Post(id) in steps && Unattended(steps)
  {
    assert MaySend(cfg, s.recs, id);
    var steps := NextPassPosts(cfg, s.recs, id);
    OneStep(cfg, s, Crash);
    RunAppends(cfg, s, [Crash], steps);
  }

  /** What ends a post that is out decides: a crash, or any result but sent, and only those,
      leave a way to post the record again. */
  lemma PostedAgainIff(cfg: Config, s: System, step: Step, id: nat)
    requires cfg.Valid() && Inv(cfg, s) && Enabled(cfg, s, step)
    requires s.phase.Sending? && id in s.phase.posted
    requires step == Crash || (step.Settle? && step.id == id)
    ensures (exists steps :: CanRun(cfg, Apply(cfg, s, step), steps) && Post(id) in steps)
            <==> step == Crash || step.result.status != Sent
  {
    assert MaySend(cfg, s.recs, id) && FitsEnvelope(cfg, s.recs, id);
    StepKeepsInv(cfg, s, step);
    PostableIff(cfg, Apply(cfg, s, step), id);
  }

  // --- the retry budget, from below ------------------------------------------------------------

  /** A record that is done with stays as it is while nobody resets it. */
  lemma {:induction false} SpentIsFrozen(cfg: Config, s: System, steps: seq<Step>, id: nat)
    requires cfg.Valid() && Inv(cfg, s) && CanRun(cfg, s, steps) && Unattended(steps)
    requires id in s.recs && !Sendable(s.recs[id], cfg.retryCap)
    ensures Post(id) !in steps
    ensures id in Run(cfg, s, steps).recs && Run(cfg, s, steps).recs[id] == s.recs[id]
    decreases steps
  {
    if steps != [] {
      assert steps == [steps[0]] + steps[1..];
      SpentStep(cfg, s, steps[0], id);
      StepKeepsInv(cfg, s, steps[0]);
      SpentIsFrozen(cfg, Apply(cfg, s, steps[0]), steps[1..], id);
    }
  }

  lemma SpentStep(cfg: Config, s: System, step: Step, id: nat)
    requires cfg.Valid() && Inv(cfg, s) && Enabled(cfg, s, step) && !step.Reset?
    requires id in s.recs && !Sendable(s.recs[id], cfg.retryCap)
    ensures step != Post(id) && id in Apply(cfg, s, step).recs && Apply(cfg, s, step).recs[id] == s.recs[id]
  {
    if s.phase.Sending? {
      assert !MaySend(cfg, s.recs, id);
    }
  }

  /** Left to themselves the passes post a record again exactly if it fits and is pending, or
      failed with fewer counted attempts than the cap. */
  lemma RetriedUnattendedIff(cfg: Config, recs: Records, id: nat)
    requires cfg.Valid() && Inv(cfg, System(recs, Idle)) && id in recs
    ensures (exists steps :: CanRun(cfg, System(recs, Idle), steps) && Unattended(steps) && Post(id) in steps)
            <==> recs[id].line.envelopeBytes <= cfg.maxLineBytes
                 && (recs[id].status == Pending || (recs[id].status == Failed && recs[id].attempts < cfg.retryCap))
  {
    var idle := System(recs, Idle);
    if !FitsEnvelope(cfg, recs, id) {
      forall steps | CanRun(cfg, idle, steps) ensures Post(id) !in steps {
        OversizeIsNeverPosted(cfg, idle, steps, id);
      }
    } else if !Sendable(recs[id], cfg.retryCap) {
      forall steps | CanRun(cfg, idle, steps) && Unattended(steps) ensures Post(id) !in steps {
        SpentIsFrozen(cfg, idle, steps, id);
      }
    } else {
      var steps := NextPassPosts(cfg, recs, id);
    }
  }

  /** One more failure that counts, and the pass dies: the record is failed, one attempt on. */
  lemma FailsOnce(cfg: Config, recs: Records, id: nat) returns (steps: seq<Step>)
    requires cfg.Valid() && Inv(cfg, System(recs, Idle)) && MaySend(cfg, recs, id) && FitsEnvelope(cfg, recs, id)
    ensures CanRun(cfg, System(recs, Idle), steps) && Unattended(steps)
    ensures var s := Run(cfg, System(recs, Idle), steps);
            && Inv(cfg, s) && s.phase.Idle? && id in s.recs
            && s.recs[id] == recs[id].(status := Failed, attempts := recs[id].attempts + 1, sentAt := false)
  {
    hide FitsEnvelope, MaySend, Inv, Start, Complete;
    var idle := System(recs, Idle);
    steps := NextPassPosts(cfg, recs, id);
    var out := Run(cfg, idle, steps);
    RunKeepsInv(cfg, idle, steps);
    assert !Oversize(cfg, out, id) by { assert FitsEnvelope(cfg, recs, id); OutFits(cfg, recs, out, id); }
    var settle := Step.Settle(id, UploadResult(Failed));
    var settled := Apply(cfg, out, settle);
    OneStep(cfg, out, settle);
    OneStep(cfg, settled, Crash);
    RunAppends(cfg, out, [settle], [Crash]);
    RunAppends(cfg, idle, steps, [settle] + [Crash]);
    steps := steps + ([settle] + [Crash]);
    RunKeepsInv(cfg, idle, steps);
  }

  lemma OutFits(cfg: Config, recs: Records, s: System, id: nat)
    requires FitsEnvelope(cfg, recs, id) && Out(s, id, recs[id])
    ensures !Oversize(cfg, s, id)
  {
  }

  /** Between manual resets a record can collect exactly as many counted outcomes as are left
      to the cap: every number up to that in some run, none beyond it in any. */
  lemma BudgetIff(cfg: Config, recs: Records, id: nat, k: nat)
    requires cfg.Valid() && Inv(cfg, System(recs, Idle)) && FitsEnvelope(cfg, recs, id)
    requires recs[id].status in {Pending, Failed}
    ensures (exists steps :: CanRun(cfg, System(recs, Idle), steps) && Unattended(steps) && Burned(steps, id) == k)
            <==> recs[id].attempts + k <= cfg.retryCap
  {
    var idle := System(recs, Idle);
    forall steps | CanRun(cfg, idle, steps) && Unattended(steps)
      ensures recs[id].attempts + Burned(steps, id) <= cfg.retryCap
    {
      BurnedAreCounted(cfg, idle, steps, id);
    }
    if recs[id].attempts + k <= cfg.retryCap {
      var steps := FailsOften(cfg, recs, id, k);
    }
  }

  lemma {:induction false} FailsOften(cfg: Config, recs: Records, id: nat, k: nat) returns (steps: seq<Step>)
    requires cfg.Valid() && Inv(cfg, System(recs, Idle)) && FitsEnvelope(cfg, recs, id)
    requires recs[id].status in {Pending, Failed} && recs[id].attempts + k <= cfg.retryCap
    ensures CanRun(cfg, System(recs, Idle), steps) && Unattended(steps) && Burned(steps, id) == k
    decreases k
  {
    if k == 0 {
      return [];
    }
    var idle := System(recs, Idle);
    assert MaySend(cfg, recs, id);
    var once := FailsOnce(cfg, recs, id);
    var s := Run(cfg, idle, once);
    var more := FailsOften(cfg, s.recs, id, k - 1);
    BurnedAreCounted(cfg, idle, once, id);
    RunAppends(cfg, idle, once, more);
    BurnedAppends(once, more, id);
    steps := once + more;
  }

  lemma {:induction false} BurnedAppends(a: seq<Step>, b: seq<Step>, id: nat)
    ensures Burned(a + b, id) == Burned(a, id) + Burned(b, id)
    decreases a
  {
    if a == [] {
      assert a + b == b;
    } else {
      BurnedAppends(a[1..], b, id);
      assert (a + b)[1..] == a[1..] + b;
    }
  }
}
