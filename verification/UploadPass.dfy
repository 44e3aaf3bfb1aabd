/** The upload pass as the program runs it: a loop that waits for whichever sends are
    done, commits them one by one in its own transaction, and refills the window. The
    order and outcome of completions are arbitrary; each method is proved to do exactly
    what the wave machine does on the schedule it happened to see. */
module UploadPass {
  import opened Basics
  import opened Results
  import opened Store
  import opened Waves
  import opened Passes
  import opened Session
  import opened SessionDay

  /** `wait(..., FIRST_COMPLETED)`: any non-empty part of the sends in flight, in any
      order. */
  method Wait(inFlight: set<nat>) returns (done: seq<nat>)
    requires inFlight != {}
    ensures done != [] && Distinct(done) && Elems(done) <= inFlight
  {
    var first :| first in inFlight;
    done := [first];
    var rest := inFlight - {first};
    var more: bool := *;
    while more && rest != {}
      invariant done != [] && Distinct(done) && Elems(done) <= inFlight && Elems(done) !! rest && rest <= inFlight
      decreases rest
    {
      var next :| next in rest;
      assert next !in Elems(done);
      done, rest := done + [next], rest - {next};
      more := *;
    }
  }

  /** The worker: refuse an oversize envelope, else post it and read whatever comes back. */
  method SendRecord(line: Line, maxLineBytes: nat, reply: Reply) returns (r: UploadResult)
    ensures Fits(r, line.envelopeBytes, maxLineBytes)
    ensures r.isLocalReject <==> line.envelopeBytes > maxLineBytes
    ensures line.envelopeBytes <= maxLineBytes ==> r == Receive(reply)
  {
    EveryResultIsWellFormed(line.envelopeBytes, maxLineBytes, reply);
    EveryReplyIsWellFormed(reply);
    if line.envelopeBytes > maxLineBytes {
      return UploadResult(Rejected, isLocalReject := true);
    }
    return Receive(reply);
  }

  function OutcomeOf(pass: Option<Pass>, aborted: bool): Outcome {
    if pass.Some? then Ran(pass.value) else if aborted then LoginRefused else NothingToSend
  }

  datatype Problem = AuthFailed | ReauthFailed | AbortedOnErrors

  class Sender {
    const cfg: Config
    const db: Db
    const client: Client
    var streak: nat
    var tally: Tally
    var touched: set<nat>
    var aborted: bool
    var problems: seq<Problem>

    constructor (cfg: Config, db: Db, client: Client)
      ensures this.cfg == cfg && this.db == db && this.client == client
      ensures streak == 0 && tally == NOTHING && touched == {} && !aborted && problems == []
    {
      this.cfg, this.db, this.client := cfg, db, client;
      streak, tally, touched, aborted, problems := 0, NOTHING, {}, false, [];
    }

    /** One transaction, one entry in the log of the pass, and its share of the summary. */
    method Commit(id: nat, r: UploadResult, countSummary: bool)
      requires id in db.records
      modifies this`tally, this`touched, db`records
      ensures db.records == CommitResult(old(db.records), id, r)
      ensures old(db.Valid()) ==> db.Valid()
      ensures tally == if countSummary then Count(old(tally), r) else old(tally)
      ensures touched == old(touched) + {old(db.records)[id].fileId}
    {
      touched := touched + {db.records[id].fileId};
      db.UpdateRecordResult(id, r);
      if !countSummary {
        return;
      }
      if r.status == Sent {
        tally := tally.(sent := tally.sent + 1);
        if r.hasWarnings {
          tally := tally.(warnings := tally.warnings + 1);
        }
        if r.componentsDropped {
          tally := tally.(dropped := tally.dropped + 1);
        }
      } else if r.status == Rejected {
        tally := tally.(rejected := tally.rejected + 1);
      } else {
        tally := tally.(failed := tally.failed + 1);
      }
    }

    /** A send in flight is done: record it, count it towards the abort, and hand out the
        next record unless the pass has given up. */
    method Settle(id: nat, final: bool, pending: seq<nat>, inFlight: set<nat>, expired: seq<nat>, abortedHere: bool)
      returns (pending': seq<nat>, inFlight': set<nat>, expired': seq<nat>, abortedHere': bool, r: UploadResult)
      requires id in db.records && id in inFlight
      modifies this`streak, this`tally, this`touched, db`records
      ensures Wave(pending', inFlight', streak, abortedHere', expired')
              == Complete(cfg, Wave(pending, inFlight, old(streak), abortedHere, expired), Completion(id, r), final)
      ensures inFlight - {id} <= inFlight'
      ensures |pending'| + |inFlight'| < |pending| + |inFlight|
      ensures Fits(r, old(db.records)[id].line.envelopeBytes, cfg.maxLineBytes)
      ensures db.records == CommitResult(old(db.records), id, r)
      ensures tally == if Resent(r, final) then old(tally) else Count(old(tally), r)
      ensures touched == old(touched) + {old(db.records)[id].fileId}
      ensures old(db.Valid()) ==> db.Valid()
    {
      pending', inFlight', expired', abortedHere' := pending, inFlight - {id}, expired, abortedHere;
      var reply: Reply := *;
      r := SendRecord(db.records[id].line, cfg.maxLineBytes, reply);
      var resend := r.sessionExpired && !final;
      if resend {
        expired' := expired' + [id];
      }
      Commit(id, r, !resend);
      if r.isNetworkError {
        streak := streak + 1;
        if streak >= cfg.threshold {
          abortedHere' := true;
        }
      } else if !r.isLocalReject {
        streak := 0;
      }
      if !abortedHere' {
        if pending' != [] {
          inFlight', pending' := inFlight' + {pending'[0]}, pending'[1..];
        }
      }
    }

    /** Send `wave` with at most `concurrency` requests in flight. Whatever happens, there
        is a schedule of the wave machine that this run followed to its end. */
    method RunWave(wave: seq<nat>, final: bool)
      returns (expired: seq<nat>, abortedHere: bool, ghost log: seq<Completion>)
      requires cfg.Valid() && Distinct(wave) && forall id :: id in wave ==> id in db.records
      modifies this`streak, this`tally, this`touched, db`records
      ensures Possible(cfg, Start(cfg, wave, old(streak)), log, final)
      ensures Replay(cfg, Start(cfg, wave, old(streak)), log, final) == Wave(
                Replay(cfg, Start(cfg, wave, old(streak)), log, final).undispatched, {}, streak, abortedHere, expired)
      ensures OutcomesFit(cfg, old(db.records), log)
      ensures db.records == CommitAll(old(db.records), log)
      ensures tally == TallyAll(old(tally), log, final)
      ensures touched == old(touched) + Touched(old(db.records), log)
      ensures old(db.Valid()) ==> db.Valid()
    {
      hide Partitioned, Complete, Touched, Fits;
      ghost var start := Start(cfg, wave, streak);
      ghost var w := start;
      log := [];
      expired, abortedHere := [], false;
      var k := Min(cfg.concurrency, |wave|);
      var inFlight, pending := Elems(wave[..k]), wave[k..];
      WaveIsPartitioned(cfg, wave, streak, log, final);
      NothingTouched(db.records);
      hide Start;
      while inFlight != {}
        invariant Following(start, final, log, w)
        invariant w == Wave(pending, inFlight, streak, abortedHere, expired)
        invariant Recorded(old(db.records), old(tally), old(touched), log, final, db.records, tally, touched)
        invariant old(db.Valid()) ==> db.Valid()
        invariant Partitioned(cfg, wave, w, log)
        decreases |pending| + |inFlight|
      {
        var done := Wait(inFlight);
        ghost var before := |pending| + |inFlight|;
        for i := 0 to |done|
          invariant forall j :: i <= j < |done| ==> done[j] in inFlight
          invariant |pending| + |inFlight| + i <= before
          invariant Following(start, final, log, w)
          invariant w == Wave(pending, inFlight, streak, abortedHere, expired)
          invariant Recorded(old(db.records), old(tally), old(touched), log, final, db.records, tally, touched)
          invariant old(db.Valid()) ==> db.Valid()
          invariant Partitioned(cfg, wave, w, log)
        {
          var id := done[i];
          KnownRecord(wave, w, log, id, old(db.records));
          ghost var recs', t', files' := db.records, tally, touched;
          hide Recorded;
          var r;
          pending, inFlight, expired, abortedHere, r := Settle(id, final, pending, inFlight, expired, abortedHere);
          ghost var x := Completion(id, r);
          CompleteKeepsPartition(cfg, wave, w, log, x, final);
          ReplayOneMore(cfg, start, log, x, final);
          RecordedOneMore(old(db.records), old(tally), old(touched), log, final, recs', t', files', x);
          FitsMeansWellFormed(r, old(db.records)[id].line.envelopeBytes);
          w, log := Complete(cfg, w, x, final), log + [x];
        }
      }
    }

    lemma NothingTouched(recs: Records)
      ensures Touched(recs, []) == {}
    {
    }

    lemma FitsMeansWellFormed(r: UploadResult, bytes: nat)
      requires Fits(r, bytes, cfg.maxLineBytes)
      ensures WellFormed(r)
    {
    }

    ghost predicate Following(start: Wave, final: bool, log: seq<Completion>, w: Wave) {
      Possible(cfg, start, log, final) && w == Replay(cfg, start, log, final)
    }

    /** What the log so far made of the tables, the summary and the touched files. */
    ghost predicate Recorded(recs: Records, t: Tally, files: set<nat>, log: seq<Completion>, final: bool,
                             recs': Records, t': Tally, files': set<nat>)
    {
      && recs' == CommitAll(recs, log)
      && OutcomesFit(cfg, recs, log)
      && t' == TallyAll(t, log, final)
      && files' == files + Touched(recs, log)
    }

    lemma RecordedOneMore(recs: Records, t: Tally, files: set<nat>, log: seq<Completion>, final: bool,
                          recs': Records, t': Tally, files': set<nat>, x: Completion)
      requires Recorded(recs, t, files, log, final, recs', t', files')
      requires x.id in recs && x.id in recs' && recs'[x.id].line == recs[x.id].line
      requires recs'[x.id].fileId == recs[x.id].fileId
      requires Fits(x.result, recs'[x.id].line.envelopeBytes, cfg.maxLineBytes)
      ensures Recorded(recs, t, files, log + [x], final, CommitResult(recs', x.id, x.result),
                       if Resent(x.result, final) then t' else Count(t', x.result),
                       files' + {recs'[x.id].fileId})
    {
      LogOneMore(recs, t, files, log, x, final);
      hide CommitAll, TallyAll, Touched, Fits, Count, CommitResult;
      var log' := log + [x];
      assert forall i :: 0 <= i < |log| ==> log'[i] == log[i];
    }

    lemma KnownRecord(wave: seq<nat>, w: Wave, log: seq<Completion>, id: nat, recs: Records)
      requires Partitioned(cfg, wave, w, log) && id in w.inFlight
      requires forall i :: i in wave ==> i in recs
      ensures id in CommitAll(recs, log) && id in recs
      ensures CommitAll(recs, log)[id].line == recs[id].line && CommitAll(recs, log)[id].fileId == recs[id].fileId
    {
      assert id in Elems(wave[..Dispatched(wave, w)]);
      CommitsAreLocal(recs, log);
    }

    lemma LogOneMore(recs: Records, t: Tally, files: set<nat>, log: seq<Completion>, x: Completion, final: bool)
      requires x.id in recs
      ensures CommitAll(recs, log + [x]) == CommitResult(CommitAll(recs, log), x.id, x.result)
      ensures TallyAll(t, log + [x], final)
              == if Resent(x.result, final) then TallyAll(t, log, final) else Count(TallyAll(t, log, final), x.result)
      ensures Touched(recs, log + [x]) == Touched(recs, log) + {recs[x.id].fileId}
    {
      CommitOneMore(recs, log, x);
      TallyOneMore(t, log, x, final);
      assert (log + [x])[|log|] == x;
      forall f | f in Touched(recs, log) ensures f in Touched(recs, log + [x]) {
        var i :| 0 <= i < |log| && log[i].id in recs && recs[log[i].id].fileId == f;
        assert (log + [x])[i] == log[i];
      }
    }

    /** What is left of the pass `p` that started on the tables `recs`. */
    ghost predicate Ended(recs: Records, p: Pass)
      reads this, db
    {
      && Completed(cfg, p)
      && OutcomesFit(cfg, recs, p.first) && OutcomesFit(cfg, recs, p.second)
      && db.records == Final(recs, p)
      && tally == Summary(cfg, p)
      && touched == Touched(recs, p.first + p.second)
      && aborted == Aborted(cfg, p)
      && AuthFailed !in problems
      && (AbortedOnErrors in problems <==> Aborted(cfg, p))
      && (ReauthFailed in problems <==> Reauthenticates(cfg, p) && !p.reauthOk)
    }

    /** The sends of a pass, with a session at hand: a first wave, at most one renewal, and
        then a second wave over what had gone stale. */
    method SendAll(order: seq<nat>, today: int) returns (ghost p: Pass)
      requires cfg.Valid() && db.Valid() && Distinct(order) && forall id :: id in order ==> id in db.records
      requires streak == 0 && tally == NOTHING && touched == {} && !aborted && problems == []
      modifies this, db`records, client, client.cache
      ensures db.Valid() && p.order == order && Ended(old(db.records), p)
      ensures client.auths == old(client.auths) + (if Reauthenticates(cfg, p) then 1 else 0)
      ensures if Resends(cfg, p) then client.cache.Load(today).Some?
              else client.cache.Load(today) == old(client.cache.Load(today))
    {
      hide Start, Replay, Possible, CommitAll, TallyAll, Touched, OutcomesFit, InOrder, Db.Valid, Granted;
      ghost var first: seq<Completion>;
      ghost var second: seq<Completion> := [];
      var expired, abortedOnce;
      expired, abortedOnce, first := RunWave(order, false);
      p := Pass(order, first, true, []);
      assert p.first == first && FirstWave(cfg, p).inFlight == {};
      ReadyToResend(order, first, old(db.records));
      var reauthOk := true;
      if expired != [] && !abortedOnce {
        var answer: Option<string> := *;
        var session := client.Reauth(answer, today);
        reauthOk := session.Some?;
        if !reauthOk {
          tally := tally.(failed := tally.failed + |expired|);
          problems := problems + [ReauthFailed];
        } else {
          var again, ignored;
          ignored, again, second := RunWave(expired, true);
          abortedOnce := abortedOnce || again;
        }
      }
      if abortedOnce {
        aborted := true;
        problems := problems + [AbortedOnErrors];
      }
      p := Pass(order, first, reauthOk, second);
      FilesOfBothWaves(old(db.records), first, second);
      assert second == [] ==> first + second == first;
    }

    /** The whole send phase. With nothing to send nobody authenticates; authentication may
        fail before anything is sent; otherwise the run is a completed pass over exactly the
        sendable records. The bureau is asked for a session at most twice: when none is
        known, and for the one renewal. */
    method SendRecords(today: int) returns (ghost pass: Option<Pass>)
      requires cfg.Valid() && db.Valid()
      requires streak == 0 && tally == NOTHING && touched == {} && !aborted && problems == []
      modifies this, db`records, client, client.cache
      ensures db.Valid()
      ensures pass.None? ==> db.records == old(db.records) && tally == NOTHING && touched == {}
      ensures pass.None? ==> if aborted then problems == [AuthFailed] && old(client.Known(today)).None?
                             else problems == []
                                  && forall id :: id in db.records ==> !Sendable(db.records[id], cfg.retryCap)
      ensures var o := OutcomeOf(pass, aborted);
              && Allowed(cfg, old(client.Known(today)).Some?, o)
              && client.auths == old(client.auths) + AuthCalls(cfg, old(client.Known(today)).Some?, o)
              && (old(client.sessid) == None ==>
                    client.cache.Load(today).Some? == CachedAfter(old(client.cache.Load(today)).Some?, o))
              && (old(client.cache.Load(today)).Some? && !(pass.Some? && Resends(cfg, pass.value)) ==>
                    client.cache.Load(today) == old(client.cache.Load(today)))
      ensures pass.Some? ==> Ended(old(db.records), pass.value) && pass.value.order != []
                             && IsSendList(old(db.records), cfg.retryCap, pass.value.order)
    {
      hide Completed, OutcomesFit, Final, Summary, Touched, Aborted, Reauthenticates, Resends, Db.Valid, InOrder;
      var order := db.SendableRecords(cfg.retryCap);
      if order == [] {
        return None;
      }
      var answer: Option<string> := *;
      var session := client.EnsureSession(answer, today);
      if session.None? {
        aborted, problems := true, [AuthFailed];
        return None;
      }
      ghost var p := SendAll(order, today);
      return Some(p);
    }

    lemma ReadyToResend(order: seq<nat>, first: seq<Completion>, recs: Records)
      requires cfg.Valid() && Distinct(order) && forall id :: id in order ==> id in recs
      requires Possible(cfg, Start(cfg, order, 0), first, false)
      requires Replay(cfg, Start(cfg, order, 0), first, false).inFlight == {}
      ensures var expired := Replay(cfg, Start(cfg, order, 0), first, false).expired;
              Distinct(expired) && forall id :: id in expired ==> id in CommitAll(recs, first)
      ensures TallyAll(TallyAll(NOTHING, first, false), [], true) == TallyAll(NOTHING, first, false)
      ensures CommitAll(CommitAll(recs, first), []) == CommitAll(recs, first)
      ensures OutcomesFit(cfg, CommitAll(recs, first), [])
    {
      FirstWaveSummary(cfg, Pass(order, first, false, []), recs);
    }

    lemma FilesOfBothWaves(recs: Records, first: seq<Completion>, second: seq<Completion>)
      requires OutcomesFit(cfg, CommitAll(recs, first), second)
      ensures Touched(recs, first + second) == Touched(recs, first) + Touched(CommitAll(recs, first), second)
      ensures OutcomesFit(cfg, recs, second)
    {
      CommitsAreLocal(recs, first);
      var log := first + second;
      forall f | f in Touched(recs, first) + Touched(CommitAll(recs, first), second) ensures f in Touched(recs, log) {
        if f in Touched(recs, first) {
          var i :| 0 <= i < |first| && first[i].id in recs && recs[first[i].id].fileId == f;
          assert log[i] == first[i];
        } else {
          var i :| 0 <= i < |second| && second[i].id in recs && recs[second[i].id].fileId == f;
          assert log[|first| + i] == second[i];
        }
      }
    }
  }
}
