/** One whole pass: ingest, send, recompute, archive. */
module RunPass {
  import opened Basics
  import opened Results
  import opened Store
  import opened Waves
  import opened Passes
  import opened Session
  import opened SessionDay
  import opened UploadPass
  import opened FilePhases

  /** After a pass exactly the finished files are archived, besides those that were archived
      already; and a stored status is the aggregate of its file's records, except for rows
      that were archived and out of date before and whose file the pass did not touch. */
  ghost predicate Settled(before: Files, recs0: Records, files: Files, recs: Records, touched: set<nat>) {
    forall f :: f in files ==>
                  RowSettled(if f in before then Some(before[f]) else None, recs0, files[f], recs, f, touched)
  }

  ghost predicate RowSettled(before: Option<FileRow>, recs0: Records, row: FileRow, recs: Records, f: nat,
                             touched: set<nat>)
  {
    && (row.archived <==> AllTerminal(recs, f) || (before.Some? && before.value.archived))
    && (!UpToDate(row, recs, f) <==>
        before.Some? && before.value.archived && !UpToDate(before.value, recs0, f) && f !in touched)
  }

  /** `_run_locked`, over any tables, also those a dead pass left behind. It makes no row
      worse, so started with archived rows up to date it ends with every row up to date; a
      dry run changes nothing. */
  method RunLocked(cfg: Config, db: Db, disk: Disk, client: Client, paths: seq<Found>, dryRun: bool, today: int)
    returns (sender: Sender, ghost loaded: Records, ghost pass: Option<Pass>)
    requires cfg.Valid() && db.Valid()
    modifies db, disk, client, client.cache
    ensures db.Valid()
    ensures old(ArchivedUpToDate(db.files, db.records)) ==> ArchivedUpToDate(db.files, db.records)
    ensures dryRun ==> db.files == old(db.files) && db.records == old(db.records) && disk.place == old(disk.place)
    ensures !dryRun ==>
              && Identities(db.files) == old(Identities(db.files)) + FoundIdentities(paths)
              && Settled(old(db.files), old(db.records), db.files, db.records, sender.touched)
    ensures pass.None? ==> db.records == loaded && sender.touched == {}
    ensures pass.Some? ==> sender.touched == Touched(loaded, pass.value.first + pass.value.second)
    ensures pass.Some? ==> db.records == Final(loaded, pass.value) && Completed(cfg, pass.value)
                           && IsSendList(loaded, cfg.retryCap, pass.value.order)
                           && sender.tally == Summary(cfg, pass.value) && sender.aborted == Aborted(cfg, pass.value)
    ensures forall id :: id in old(db.records) ==> id in loaded && loaded[id] == old(db.records)[id]
    ensures var o := OutcomeOf(pass, sender.aborted);
            && Allowed(cfg, old(client.Known(today)).Some?, o)
            && client.auths == old(client.auths) + AuthCalls(cfg, old(client.Known(today)).Some?, o)
            && (old(client.sessid) == None ==>
                  client.cache.Load(today).Some? == CachedAfter(old(client.cache.Load(today)).Some?, o))
  {
    hide Db.Valid, Grown, IngestedFrom, Identities, ArchivedUpToDate, Settled, Recomputed, Archived, Finished,
         FoundIdentities, IsSendList, Completed, OutcomesFit, Final, Touched, CommitAll;
    ghost var files0, recs0 := db.files, db.records;
    sender := new Sender(cfg, db, client);
    pass := None;
    var filesNew, filesEmpty := IngestNewFiles(db, paths, dryRun);
    loaded := db.records;
    if dryRun {
      return;
    }
    ghost var files1 := db.files;
    GrownKeepsRecords(files0, recs0, files1, loaded);
    pass := sender.SendRecords(today);
    ghost var p := if pass.Some? then pass.value else NO_PASS;
    NothingSent(cfg, loaded);
    RecomputePhase(db, sender.touched);
    ghost var files2 := db.files;
    var moved, order := disk.ArchiveCompletedFiles(db);
    PassSettles(cfg, files0, recs0, files1, loaded, p, order);
  }

  /** Passes of one day, each with a client of its own, over whatever the inbox holds by
      then: the clients share nothing but the cached session, and together they ask the
      bureau for one, plus one for each refused login and each renewal. */
  method RunDay(cfg: Config, db: Db, disk: Disk, cache: Cache, inboxes: seq<seq<Found>>, today: int)
    returns (ghost day: seq<Outcome>, ghost calls: nat)
    requires cfg.Valid() && db.Valid()
    modifies db, disk, cache
    ensures db.Valid()
    ensures old(ArchivedUpToDate(db.files, db.records)) ==> ArchivedUpToDate(db.files, db.records)
    ensures |day| == |inboxes| && DayAllowed(cfg, old(cache.Load(today)).Some?, day)
    ensures cache.Load(today).Some? == CachedAfterAll(old(cache.Load(today)).Some?, day)
    ensures calls == (if old(cache.Load(today)).None? && cache.Load(today).Some? then 1 else 0)
                     + Refusals(day) + Renewals(cfg, day)
  {
    hide Allowed, AuthCalls, Db.Valid, ArchivedUpToDate, Settled, DayAllowed, DayCalls, CachedAfterAll, CachedAfter;
    ghost var cached := cache.Load(today).Some?;
    day, calls := [], 0;
    EmptyDay(cfg, cached);
    for i := 0 to |inboxes|
      invariant db.Valid()
      invariant old(ArchivedUpToDate(db.files, db.records)) ==> ArchivedUpToDate(db.files, db.records)
      invariant |day| == i && DayAllowed(cfg, cached, day)
      invariant cache.Load(today).Some? == CachedAfterAll(cached, day)
      invariant calls == DayCalls(cfg, cached, day)
    {
      var client := new Client(cache);
      ghost var loaded, pass;
      var sender;
      sender, loaded, pass := RunLocked(cfg, db, disk, client, inboxes[i], false, today);
      ghost var o := OutcomeOf(pass, sender.aborted);
      OneMoreOutcome(cfg, cached, day, o);
      day, calls := day + [o], calls + client.auths;
    }
    AuthCallsOfADay(cfg, cached, day);
  }

  lemma EmptyDay(cfg: Config, cached: bool)
    ensures DayAllowed(cfg, cached, []) && CachedAfterAll(cached, []) == cached && DayCalls(cfg, cached, []) == 0
  {
  }

  lemma GrownKeepsRecords(files0: Files, recs0: Records, files: Files, recs: Records)
    requires Grown(files0, recs0, files, recs)
    ensures forall id :: id in recs0 ==> id in recs && recs[id] == recs0[id]
  {
  }

  const NO_PASS := Pass([], [], true, [])

  lemma NothingSent(cfg: Config, recs: Records)
    ensures Final(recs, NO_PASS) == recs && Touched(recs, NO_PASS.first + NO_PASS.second) == {}
    ensures OutcomesFit(cfg, recs, NO_PASS.first) && OutcomesFit(cfg, recs, NO_PASS.second)
  {
  }

  lemma PassSettles(cfg: Config, files0: Files, recs0: Records, files1: Files, recs1: Records, p: Pass, order: seq<nat>)
    requires Grown(files0, recs0, files1, recs1)
    requires OutcomesFit(cfg, recs1, p.first) && OutcomesFit(cfg, recs1, p.second)
    requires var files2 := Recomputed(files1, Final(recs1, p), Scope(files1, Touched(recs1, p.first + p.second)));
             forall f :: f in order <==> Finished(files2, Final(recs1, p), f)
    ensures var touched := Touched(recs1, p.first + p.second);
            var files2 := Recomputed(files1, Final(recs1, p), Scope(files1, touched));
            && Settled(files0, recs0, Archived(files2, order), Final(recs1, p), touched)
            && (ArchivedUpToDate(files0, recs0) ==> ArchivedUpToDate(Archived(files2, order), Final(recs1, p)))
            && Identities(Archived(files2, order)) == Identities(files1)
  {
    ScopedRecomputeIff(files1, recs1, p);
    hide Final, Touched, Identities, OutcomesFit, Grown, UpToDate, AllTerminal;
    var recs, touched := Final(recs1, p), Touched(recs1, p.first + p.second);
    var scope := Scope(files1, touched);
    forall f | f in files1
      ensures Marked(files1[f], Archived(Recomputed(files1, recs, scope), order)[f], recs1, recs, f, touched)
    {
      OneFileSettles(files1, recs1, recs, touched, order, f);
    }
    SettledOverall(files0, recs0, files1, recs1, Archived(Recomputed(files1, recs, scope), order), recs, touched);
  }

  /** What a pass does to one stored row. */
  ghost predicate Marked(before: FileRow, after: FileRow, recs1: Records, recs: Records, f: nat, touched: set<nat>) {
    && Identity(after) == Identity(before)
    && (after.archived <==> before.archived || AllTerminal(recs, f))
    && (!UpToDate(after, recs, f) <==> before.archived && f !in touched && !UpToDate(before, recs1, f))
  }

  lemma OneFileSettles(files: Files, recs1: Records, recs: Records, touched: set<nat>, order: seq<nat>, f: nat)
    requires f in files
    requires var scope := Scope(files, touched);
             UpToDate(Recomputed(files, recs, scope)[f], recs, f) <==> f in scope || UpToDate(files[f], recs1, f)
    requires forall g :: g in order <==> Finished(Recomputed(files, recs, Scope(files, touched)), recs, g)
    ensures Marked(files[f], Archived(Recomputed(files, recs, Scope(files, touched)), order)[f], recs1, recs, f,
                   touched)
  {
    hide TrueStatus, AllTerminal;
  }

  lemma SettledOverall(files0: Files, recs0: Records, files1: Files, recs1: Records,
                       files: Files, recs: Records, touched: set<nat>)
    requires Grown(files0, recs0, files1, recs1) && files.Keys == files1.Keys
    requires forall f :: f in files1 ==> Marked(files1[f], files[f], recs1, recs, f, touched)
    ensures Settled(files0, recs0, files, recs, touched) && Identities(files) == Identities(files1)
    ensures ArchivedUpToDate(files0, recs0) ==> ArchivedUpToDate(files, recs)
  {
    hide UpToDate, AllTerminal, Grown, Marked, RowSettled;
    forall f | f in files
      ensures RowSettled(if f in files0 then Some(files0[f]) else None, recs0, files[f], recs, f, touched)
      ensures Identity(files[f]) == Identity(files1[f])
    {
      RowSettles(files0, recs0, files1, recs1, files[f], recs, f, touched);
    }
    SameIdentities(files1, files);
    AllSettled(files0, recs0, files, recs, touched);
  }

  lemma RowSettles(files0: Files, recs0: Records, files1: Files, recs1: Records,
                   row: FileRow, recs: Records, f: nat, touched: set<nat>)
    requires Grown(files0, recs0, files1, recs1) && f in files1 && Marked(files1[f], row, recs1, recs, f, touched)
    ensures RowSettled(if f in files0 then Some(files0[f]) else None, recs0, row, recs, f, touched)
    ensures Identity(row) == Identity(files1[f])
  {
    if f in files0 {
      SameRecords(recs0, recs1, f);
    }
    hide StatusesOf, AllTerminal;
  }

  lemma AllSettled(files0: Files, recs0: Records, files: Files, recs: Records, touched: set<nat>)
    requires Settled(files0, recs0, files, recs, touched)
    ensures ArchivedUpToDate(files0, recs0) ==> ArchivedUpToDate(files, recs)
  {
    hide UpToDate, AllTerminal;
  }

  lemma SameIdentities(a: Files, b: Files)
    requires a.Keys == b.Keys && forall f :: f in b ==> Identity(b[f]) == Identity(a[f])
    ensures Identities(a) == Identities(b)
  {
    forall x | x in Identities(a) ensures x in Identities(b) {
      var f :| f in a && Identity(a[f]) == x;
      assert Identity(b[f]) == x;
    }
    forall x | x in Identities(b) ensures x in Identities(a) {
      var f :| f in b && Identity(b[f]) == x;
      assert Identity(a[f]) == x;
    }
  }
}
