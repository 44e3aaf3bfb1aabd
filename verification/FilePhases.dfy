/** The phases of a pass around the sends: ingesting new files, recomputing file
    statuses, and moving finished files out of the inbox. A folder maps names to
    contents, and a content is identified by its digest. */
module FilePhases {
  import opened Basics
  import opened Results
  import opened Store
  import opened Waves
  import opened Passes

  // --- ingest ---------------------------------------------------------------------

  datatype Found = Found(name: string, sha256: string, lines: seq<Line>)

  function FoundIdentity(p: Found): (string, string) { (p.name, p.sha256) }

  ghost function FoundIdentities(paths: seq<Found>): set<(string, string)> {
    set p | p in paths :: FoundIdentity(p)
  }

  /** The records of file `f` are exactly `lines`, numbered from 1. */
  ghost predicate Loaded(recs: Records, f: nat, lines: seq<Line>) {
    && (forall id :: id in recs && recs[id].fileId == f ==>
                       1 <= recs[id].lineNo <= |lines| && recs[id].line == lines[recs[id].lineNo - 1])
    && (forall n :: 1 <= n <= |lines| ==> HasLine(recs, f, n))
  }

  ghost predicate HasLine(recs: Records, f: nat, lineNo: nat) {
    exists id :: id in recs && recs[id].fileId == f && recs[id].lineNo == lineNo
  }

  lemma NewFileIsLoaded(recs: Records, f: nat, first: nat, lines: seq<Line>)
    requires forall id :: id in recs ==> id < first && recs[id].fileId != f
    ensures Loaded(recs + NewRecords(f, first, lines), f, lines)
  {
    hide NewRecords, HasLine;
    var recs' := recs + NewRecords(f, first, lines);
    forall id | id in recs' && recs'[id].fileId == f
      ensures 1 <= recs'[id].lineNo <= |lines| && recs'[id].line == lines[recs'[id].lineNo - 1]
    {
      NewContents(recs, f, first, lines, id);
    }
    forall n | 1 <= n <= |lines| ensures HasLine(recs', f, n) {
      NewLine(recs, f, first, lines, n);
    }
  }

  lemma NewContents(recs: Records, f: nat, first: nat, lines: seq<Line>, id: nat)
    requires id in recs ==> recs[id].fileId != f
    requires id in recs + NewRecords(f, first, lines) && (recs + NewRecords(f, first, lines))[id].fileId == f
    ensures var row := (recs + NewRecords(f, first, lines))[id];
            1 <= row.lineNo <= |lines| && row.line == lines[row.lineNo - 1]
  {
    assert id in NewRecords(f, first, lines);
  }

  lemma NewLine(recs: Records, f: nat, first: nat, lines: seq<Line>, n: nat)
    requires 1 <= n <= |lines|
    ensures HasLine(recs + NewRecords(f, first, lines), f, n)
  {
    var more := NewRecords(f, first, lines);
    assert first + n - 1 in more && (recs + more)[first + n - 1] == more[first + n - 1];
  }

  lemma LoadedStays(recs: Records, more: Records, f: nat, lines: seq<Line>)
    requires Loaded(recs, f, lines) && recs.Keys !! more.Keys
    requires forall id :: id in more ==> more[id].fileId != f
    ensures Loaded(recs + more, f, lines)
  {
    forall n | 1 <= n <= |lines| ensures HasLine(recs + more, f, n) {
      assert HasLine(recs, f, n);
      var id :| id in recs && recs[id].fileId == f && recs[id].lineNo == n;
      assert (recs + more)[id] == recs[id];
    }
  }

  /** Every file not in `before` came from `paths`, with exactly its lines as pending
      records. */
  ghost predicate IngestedFrom(before: Files, files: Files, recs: Records, paths: seq<Found>) {
    forall f :: f in files && f !in before ==>
                  exists p :: p in paths && Identity(files[f]) == FoundIdentity(p) && Loaded(recs, f, p.lines)
  }

  /** What one path does to the tables: nothing when its identity is known. */
  method IngestOne(db: Db, p: Found, ghost files0: Files, ghost recs0: Records, ghost paths: seq<Found>)
    returns (isNew: bool)
    requires db.Valid() && p in paths
    requires Grown(files0, recs0, db.files, db.records) && IngestedFrom(files0, db.files, db.records, paths)
    modifies db
    ensures db.Valid()
    ensures Grown(files0, recs0, db.files, db.records) && IngestedFrom(files0, db.files, db.records, paths)
    ensures Identities(db.files) == old(Identities(db.files)) + {FoundIdentity(p)}
    ensures isNew <==> FoundIdentity(p) !in old(Identities(db.files))
    ensures |db.files.Keys| == |old(db.files).Keys| + (if isNew then 1 else 0)
  {
    hide Grown, IngestedFrom, Identities, NewRecords;
    ghost var files1, recs1, first := db.files, db.records, db.nextRecordId;
    assert forall r :: r in recs1 ==> r < first && recs1[r].fileId in files1;
    var id := db.InsertFile(p.name, p.sha256, p.lines);
    isNew := id.Some?;
    if isNew {
      assert db.files.Keys == files1.Keys + {id.value};
      IdentitiesGrow(files1, id.value, db.files[id.value]);
      OneMoreFile(files0, files1, recs1, db.files, id.value, first, p, paths);
      GrownMore(files0, recs0, files1, recs1, id.value, db.files[id.value], first, p.lines);
    } else {
      assert Identities(db.files) == Identities(files1) + {FoundIdentity(p)};
    }
  }

  lemma GrownMore(files0: Files, recs0: Records, files1: Files, recs1: Records, f: nat,
                  row: FileRow, first: nat, lines: seq<Line>)
    requires Grown(files0, recs0, files1, recs1) && f !in files1 && !row.archived
    requires forall id :: id in recs1 ==> id < first
    ensures Grown(files0, recs0, files1[f := row], recs1 + NewRecords(f, first, lines))
  {
  }

  /** The paths counted as new: of unknown identity, and in a real run not listed before. */
  ghost function NewOnes(known: set<(string, string)>, paths: seq<Found>, dryRun: bool): seq<Found> {
    if paths == [] then []
    else
      var before, p := paths[..|paths| - 1], paths[|paths| - 1];
      NewOnes(known, before, dryRun)
      + (if FoundIdentity(p) in known || (!dryRun && FoundIdentity(p) in FoundIdentities(before)) then [] else [p])
  }

  function EmptyOnes(paths: seq<Found>): nat {
    if paths == [] then 0
    else EmptyOnes(paths[..|paths| - 1]) + (if paths[|paths| - 1].lines == [] then 1 else 0)
  }

  lemma OneMoreCounted(known: set<(string, string)>, paths: seq<Found>, dryRun: bool, i: nat)
    requires i < |paths|
    ensures var before, after := NewOnes(known, paths[..i], dryRun), NewOnes(known, paths[..i + 1], dryRun);
            if FoundIdentity(paths[i]) in known || (!dryRun && FoundIdentity(paths[i]) in FoundIdentities(paths[..i]))
            then after == before
            else |after| == |before| + 1
                 && EmptyOnes(after) == EmptyOnes(before) + (if paths[i].lines == [] then 1 else 0)
  {
    assert paths[..i + 1][..i] == paths[..i];
    var before := NewOnes(known, paths[..i], dryRun);
    assert (before + [paths[i]])[..|before|] == before;
  }

  /** Each (name, digest) is ingested once, whatever was there and however often a path
      is seen again; what was there stays as it was. */
  method IngestNewFiles(db: Db, paths: seq<Found>, dryRun: bool) returns (filesNew: nat, filesEmpty: nat)
    requires db.Valid()
    modifies db
    ensures db.Valid()
    ensures var counted := NewOnes(old(Identities(db.files)), paths, dryRun);
            filesNew == |counted| && filesEmpty == EmptyOnes(counted)
    ensures dryRun ==> db.files == old(db.files) && db.records == old(db.records)
    ensures !dryRun ==>
              && Identities(db.files) == old(Identities(db.files)) + FoundIdentities(paths)
              && Grown(old(db.files), old(db.records), db.files, db.records)
              && IngestedFrom(old(db.files), db.files, db.records, paths)
              && filesNew == |db.files.Keys| - |old(db.files).Keys|
  {
    hide Grown, IngestedFrom, Identities, FoundIdentities, EmptyOnes;
    NothingCounted(Identities(db.files), dryRun);
    filesNew, filesEmpty := 0, 0;
    ghost var files0, recs0 := db.files, db.records;
    NothingIngested(files0, recs0, paths);
    for i := 0 to |paths|
      invariant db.Valid()
      invariant filesNew == |NewOnes(Identities(files0), paths[..i], dryRun)|
      invariant filesEmpty == EmptyOnes(NewOnes(Identities(files0), paths[..i], dryRun))
      invariant dryRun ==> db.files == files0 && db.records == recs0
      invariant !dryRun ==>
                  && Identities(db.files) == Identities(files0) + FoundIdentities(paths[..i])
                  && Grown(files0, recs0, db.files, db.records)
                  && IngestedFrom(files0, db.files, db.records, paths)
                  && filesNew == |db.files.Keys| - |files0.Keys|
    {
      var p := paths[i];
      OneMorePath(paths, i);
      OneMoreCounted(Identities(files0), paths, dryRun, i);
      var known := db.FindIdentity(p.name, p.sha256);
      if !known {
        filesNew := filesNew + 1;
        if p.lines == [] {
          filesEmpty := filesEmpty + 1;
        }
        if !dryRun {
          var isNew := IngestOne(db, p, files0, recs0, paths);
        }
      }
    }
    assert paths[..|paths|] == paths;
  }

  lemma NothingCounted(known: set<(string, string)>, dryRun: bool)
    ensures NewOnes(known, [], dryRun) == [] && EmptyOnes([]) == 0
  {
  }

  lemma NothingIngested(files: Files, recs: Records, paths: seq<Found>)
    ensures Grown(files, recs, files, recs) && IngestedFrom(files, files, recs, paths)
    ensures Identities(files) == Identities(files) + FoundIdentities(paths[..0])
  {
  }

  lemma OneMorePath(paths: seq<Found>, i: nat)
    requires i < |paths|
    ensures FoundIdentities(paths[..i + 1]) == FoundIdentities(paths[..i]) + {FoundIdentity(paths[i])}
  {
    assert paths[..i + 1] == paths[..i] + [paths[i]];
  }

  ghost predicate Grown(files0: Files, recs0: Records, files: Files, recs: Records) {
    && (forall f :: f in files0 ==> f in files && files[f] == files0[f])
    && (forall f :: f in files && f !in files0 ==> !files[f].archived)
    && (forall id :: id in recs0 ==> id in recs && recs[id] == recs0[id])
    && (forall id :: id in recs && id !in recs0 ==>
                       recs[id].status == Pending && recs[id].attempts == 0 && recs[id].fileId !in files0)
  }

  lemma IdentitiesGrow(files: Files, f: nat, row: FileRow)
    requires f !in files
    ensures Identities(files[f := row]) == Identities(files) + {Identity(row)}
  {
    var files' := files[f := row];
    forall x | x in Identities(files) + {Identity(row)} ensures x in Identities(files') {
      if x in Identities(files) {
        var g :| g in files && Identity(files[g]) == x;
        assert files'[g] == files[g];
      } else {
        assert files'[f] == row;
      }
    }
  }

  lemma OneMoreFile(files0: Files, files1: Files, recs1: Records, files: Files,
                    f: nat, first: nat, p: Found, paths: seq<Found>)
    requires IngestedFrom(files0, files1, recs1, paths) && p in paths
    requires f !in files1 && f in files && files == files1[f := files[f]] && Identity(files[f]) == FoundIdentity(p)
    requires forall id :: id in recs1 ==> id < first && recs1[id].fileId in files1
    ensures IngestedFrom(files0, files, recs1 + NewRecords(f, first, p.lines), paths)
  {
    var recs := recs1 + NewRecords(f, first, p.lines);
    NewFileIsLoaded(recs1, f, first, p.lines);
    forall g | g in files && g !in files0
      ensures exists q :: q in paths && Identity(files[g]) == FoundIdentity(q) && Loaded(recs, g, q.lines)
    {
      if g != f {
        var q :| q in paths && Identity(files1[g]) == FoundIdentity(q) && Loaded(recs1, g, q.lines);
        LoadedStays(recs1, NewRecords(f, first, p.lines), g, q.lines);
      }
    }
  }

  // --- recompute -------------------------------------------------------------------------

  /** The status a file's records say it has. */
  ghost function TrueStatus(recs: Records, f: nat): Status { Aggregate(StatusesOf(recs, f)) }

  ghost function Recomputed(files: Files, recs: Records, scope: set<nat>): Files {
    map f | f in files :: if f in scope then WithStatus(files[f], TrueStatus(recs, f)) else files[f]
  }

  /** Files not archived yet, plus the files whose records this pass touched. */
  method RecomputePhase(db: Db, touched: set<nat>)
    requires db.Valid()
    modifies db`files
    ensures db.Valid()
    ensures db.files == Recomputed(old(db.files), db.records, Scope(old(db.files), touched))
  {
    hide Aggregate, StatusesOf, AllTerminal, WithStatus;
    var todo := Scope(db.files, touched);
    ghost var files0, scope := db.files, todo;
    assert db.files == Recomputed(files0, db.records, scope - todo);
    while todo != {}
      invariant todo <= scope && db.Valid()
      invariant db.files == Recomputed(files0, db.records, scope - todo)
      decreases todo
    {
      var f :| f in todo;
      var s := db.RecomputeFileStatus(f);
      todo := todo - {f};
      assert db.files == Recomputed(files0, db.records, scope - todo);
    }
    assert scope - todo == scope;
  }

  function Scope(files: Files, touched: set<nat>): set<nat> {
    (set f | f in files && !files[f].archived) + touched
  }

  /** A stored row that recomputing would not change. */
  ghost predicate UpToDate(row: FileRow, recs: Records, f: nat) {
    WithStatus(row, TrueStatus(recs, f)) == row
  }

  lemma UntouchedFile(recs: Records, recs': Records, f: nat)
    requires recs'.Keys == recs.Keys
    requires forall id :: id in recs ==> recs'[id].fileId == recs[id].fileId
    requires forall id :: id in recs && recs[id].fileId == f ==> recs'[id] == recs[id]
    ensures StatusesOf(recs', f) == StatusesOf(recs, f)
  {
    var a, b := StatusesOf(recs, f), StatusesOf(recs', f);
    forall s | s in a ensures s in b {
      var id :| id in recs && recs[id].fileId == f && recs[id].status == s;
      assert recs'[id].status == s;
    }
    forall s | s in b ensures s in a {
      var id :| id in recs' && recs'[id].fileId == f && recs'[id].status == s;
      assert recs[id].status == s;
    }
  }

  /** After a pass and its scoped recompute a row is up to date exactly if it was recomputed
      or was up to date before. So if archived rows were up to date when the pass began, the
      tables are as recomputing every file would leave them. */
  lemma ScopedRecomputeIff(files: Files, recs: Records, p: Pass)
    requires forall i :: 0 <= i < |p.first| ==> p.first[i].id in recs
    requires forall i :: 0 <= i < |p.second| ==> p.second[i].id in recs
    ensures var recs', scope := Final(recs, p), Scope(files, Touched(recs, p.first + p.second));
            && (forall f :: f in files ==>
                  (UpToDate(Recomputed(files, recs', scope)[f], recs', f)
                   <==> f in scope || UpToDate(files[f], recs, f)))
            && (ArchivedUpToDate(files, recs) ==>
                  && Recomputed(files, recs', scope) == Recomputed(files, recs', files.Keys)
                  && forall f :: f in files ==> Recomputed(files, recs', scope)[f].status == TrueStatus(recs', f))
  {
    var recs' := Final(recs, p);
    var touched := Touched(recs, p.first + p.second);
    CommitsAreLocal(recs, p.first);
    CommitsAreLocal(CommitAll(recs, p.first), p.second);
    forall f | f in files && f !in Scope(files, touched) ensures TrueStatus(recs', f) == TrueStatus(recs, f) {
      forall id | id in recs && recs[id].fileId == f ensures recs'[id] == recs[id] {
        NotTouched(recs, p, id);
      }
      UntouchedFile(recs, recs', f);
    }
    hide TrueStatus, Final, Touched;
  }

  lemma NotTouched(recs: Records, p: Pass, id: nat)
    requires id in recs && recs[id].fileId !in Touched(recs, p.first + p.second)
    ensures id !in Ids(p.first) && id !in Ids(p.second)
  {
    var log := p.first + p.second;
    forall i | 0 <= i < |log| ensures log[i].id != id {
    }
    forall i | 0 <= i < |p.first| ensures p.first[i].id != id {
      assert log[i] == p.first[i];
    }
    forall i | 0 <= i < |p.second| ensures p.second[i].id != id {
      assert log[|p.first| + i] == p.second[i];
    }
  }

  /** A manual retry through the API, reset then recompute of that file, keeps every other
      row up to date and brings this one up to date. */
  lemma ApiRetryKeepsUpToDate(files: Files, recs: Records, f: nat, ids: set<nat>)
    requires forall g :: g in files && g != f ==> UpToDate(files[g], recs, g)
    requires forall id :: id in ids && id in recs ==> recs[id].fileId == f
    ensures var recs' := ResetAll(recs, ids);
            forall g :: g in files ==> UpToDate(Recomputed(files, recs', {f})[g], recs', g)
  {
    var recs' := ResetAll(recs, ids);
    forall g | g in files && g != f ensures UpToDate(files[g], recs', g) {
      UntouchedFile(recs, recs', g);
    }
  }

  /** What the scoped recompute relies on: archived rows are up to date. */
  ghost predicate ArchivedUpToDate(files: Files, recs: Records) {
    forall f :: f in files && files[f].archived ==> UpToDate(files[f], recs, f)
  }

  /** New files leave the archived ones up to date. */
  lemma IngestKeepsArchived(files0: Files, recs0: Records, files: Files, recs: Records)
    requires ArchivedUpToDate(files0, recs0) && Grown(files0, recs0, files, recs)
    ensures ArchivedUpToDate(files, recs)
  {
    forall f | f in files && files[f].archived ensures UpToDate(files[f], recs, f) {
      assert f in files0;
      SameRecords(recs0, recs, f);
    }
  }

  lemma SameRecords(recs0: Records, recs: Records, f: nat)
    requires forall id :: id in recs0 ==> id in recs && recs[id] == recs0[id]
    requires forall id :: id in recs && id !in recs0 ==> recs[id].fileId != f
    ensures StatusesOf(recs, f) == StatusesOf(recs0, f)
  {
    forall s | s in StatusesOf(recs0, f) ensures s in StatusesOf(recs, f) {
      var id :| id in recs0 && recs0[id].fileId == f && recs0[id].status == s;
      assert recs[id] == recs0[id];
    }
  }

  // --- archive ---------------------------------------------------------------------------------

  function Prefixed(name: string, sha256: string): string {
    (if |sha256| >= 8 then sha256[..8] else sha256) + "_" + name
  }

  /** `unique_target`: the name, or its digest-prefixed variant when the name is taken. */
  function UniqueTarget(folder: Folder, name: string, sha256: string): string {
    if name in folder then Prefixed(name, sha256) else name
  }

  datatype Place = Place(inbox: Folder, archive: Folder)

  /** The inbox still holds this very version of the file. */
  predicate StillThere(place: Place, row: FileRow) {
    row.filename in place.inbox && place.inbox[row.filename] == row.sha256
  }

  function MoveOut(place: Place, row: FileRow): Place {
    if StillThere(place, row) then
      Place(place.inbox - {row.filename},
            place.archive[UniqueTarget(place.archive, row.filename, row.sha256) := row.sha256])
    else place
  }

  function MoveAll(place: Place, rows: seq<FileRow>): Place {
    if rows == [] then place else MoveOut(MoveAll(place, rows[..|rows| - 1]), rows[|rows| - 1])
  }

  /** How many of the files are moved. */
  function Moves(place: Place, rows: seq<FileRow>): nat {
    if rows == [] then 0
    else
      var before, row := rows[..|rows| - 1], rows[|rows| - 1];
      Moves(place, before) + (if StillThere(MoveAll(place, before), row) then 1 else 0)
  }

  /** The archive query. */
  ghost predicate Finished(files: Files, recs: Records, f: nat) {
    f in files && !files[f].archived && AllTerminal(recs, f)
  }

  ghost function Archived(files: Files, order: seq<nat>): Files {
    map f | f in files :: if f in order then files[f].(archived := true) else files[f]
  }

  class Disk {
    var place: Place

    method ArchiveOne(db: Db, f: nat) returns (moved: bool)
      requires f in db.files
      modifies this, db`files
      ensures old(db.Valid()) ==> db.Valid()
      ensures db.files == old(db.files)[f := old(db.files)[f].(archived := true)]
      ensures place == MoveOut(old(place), old(db.files)[f])
      ensures moved <==> StillThere(old(place), old(db.files)[f])
    {
      var row := db.files[f];
      if row.filename !in place.inbox || place.inbox[row.filename] != row.sha256 {
        db.MarkArchived(f);
        return false;
      }
      var target := UniqueTarget(place.archive, row.filename, row.sha256);
      place := Place(place.inbox - {row.filename}, place.archive[target := row.sha256]);
      db.MarkArchived(f);
      return true;
    }

    /** Every unarchived file without unfinished records is marked archived, nothing else
        is; the one version still in the inbox moves to the archive. */
    method ArchiveCompletedFiles(db: Db) returns (moved: nat, ghost order: seq<nat>)
      requires db.Valid()
      modifies this, db`files
      ensures db.Valid() && Distinct(order)
      ensures forall f :: f in order <==> Finished(old(db.files), db.records, f)
      ensures db.files == Archived(old(db.files), order)
      ensures place == MoveAll(old(place), Rows(old(db.files), order))
      ensures moved == Moves(old(place), Rows(old(db.files), order))
    {
      var todo := set f | f in db.files && !db.files[f].archived
                          && forall id :: id in db.records && db.records[id].fileId == f ==>
                                           db.records[id].status in {Sent, Rejected};
      ghost var files0, all := db.files, todo;
      assert forall f :: f in all <==> Finished(files0, db.records, f);
      hide Finished, MoveOut, MoveAll, Moves, Rows, StillThere, Db.Valid;
      NoRows(place, files0);
      moved, order := 0, [];
      while todo != {}
        invariant todo <= all && all <= files0.Keys && db.Valid() && Distinct(order)
        invariant forall f :: f in order <==> f in all - todo
        invariant db.files == Archived(files0, order)
        invariant place == MoveAll(old(place), Rows(files0, order))
        invariant moved == Moves(old(place), Rows(files0, order))
        decreases todo
      {
        var f :| f in todo;
        var one := ArchiveOne(db, f);
        if one {
          moved := moved + 1;
        }
        OneMoreRow(old(place), files0, order, f);
        order, todo := order + [f], todo - {f};
      }
    }
  }

  /** The rows of the listed files, in that order. */
  function Rows(files: Files, order: seq<nat>): seq<FileRow> {
    if order == [] then []
    else
      var f := order[|order| - 1];
      Rows(files, order[..|order| - 1]) + (if f in files then [files[f]] else [])
  }

  lemma NoRows(place: Place, files: Files)
    ensures MoveAll(place, Rows(files, [])) == place && Moves(place, Rows(files, [])) == 0
    ensures Archived(files, []) == files
  {
  }

  lemma OneMoreRow(place: Place, files: Files, order: seq<nat>, f: nat)
    requires f in files
    ensures MoveAll(place, Rows(files, order + [f])) == MoveOut(MoveAll(place, Rows(files, order)), files[f])
    ensures Moves(place, Rows(files, order + [f])) == Moves(place, Rows(files, order))
              + (if StillThere(MoveAll(place, Rows(files, order)), files[f]) then 1 else 0)
    ensures f !in order ==> Archived(files, order + [f]) == Archived(files, order)[f := files[f].(archived := true)]
  {
    assert (order + [f])[..|order|] == order;
    assert Rows(files, order + [f]) == Rows(files, order) + [files[f]];
    assert (Rows(files, order) + [files[f]])[..|Rows(files, order)|] == Rows(files, order);
  }

  /** After the recompute, the archive query picks exactly the unarchived files whose
      stored status is SENT or REJECTED, files without records among them. */
  lemma ArchivedAreTerminal(files: Files, recs: Records, f: nat)
    requires f in files && UpToDate(files[f], recs, f)
    ensures Finished(files, recs, f) <==> !files[f].archived && files[f].status in {Sent, Rejected}
    ensures (forall id :: id in recs ==> recs[id].fileId != f) && !files[f].archived ==> Finished(files, recs, f)
  {
    AggregateIsTerminalIff(recs, f);
  }

  /** The archive names these files could need are distinct and not in use. */
  ghost predicate NamesFree(place: Place, rows: seq<FileRow>) {
    && (forall i :: 0 <= i < |rows| ==> Prefixed(rows[i].filename, rows[i].sha256) !in place.archive)
    && (forall i, j :: 0 <= i < |rows| && 0 <= j < |rows| ==>
                         Prefixed(rows[i].filename, rows[i].sha256) != rows[j].filename)
    && (forall i, j :: 0 <= i < j < |rows| ==>
                         Prefixed(rows[i].filename, rows[i].sha256) != Prefixed(rows[j].filename, rows[j].sha256))
  }

  /** From `place` to `after` the archive only grew, by names these files account for; the
      inbox only shrank, by files whose contents are now in the archive. */
  ghost predicate Conserved(place: Place, after: Place, rows: seq<FileRow>) {
    ArchiveGrew(place, after, rows) && InboxShrank(place, after, rows)
  }

  ghost predicate ArchiveGrew(place: Place, after: Place, rows: seq<FileRow>) {
    && (forall n :: n in place.archive ==> n in after.archive && after.archive[n] == place.archive[n])
    && (forall n :: n in after.archive && n !in place.archive ==> NamedBy(rows, n))
  }

  ghost predicate InboxShrank(place: Place, after: Place, rows: seq<FileRow>) {
    && (forall n :: n in after.inbox ==> n in place.inbox && after.inbox[n] == place.inbox[n])
    && (forall n :: n in place.inbox && n !in after.inbox ==> Holds(after.archive, place.inbox[n]))
    && (forall i :: 0 <= i < |rows| ==> !StillThere(after, rows[i]))
  }

  ghost predicate Holds(folder: Folder, content: string) {
    exists n :: n in folder && folder[n] == content
  }

  ghost predicate NamedBy(rows: seq<FileRow>, n: string) {
    exists i :: 0 <= i < |rows| && NameOf(rows[i], n)
  }

  lemma NamedByMore(rows: seq<FileRow>, row: FileRow, n: string)
    ensures NamedBy(rows + [row], n) <==> NamedBy(rows, n) || NameOf(row, n)
  {
    if NamedBy(rows, n) {
      var i :| 0 <= i < |rows| && NameOf(rows[i], n);
      assert NameOf((rows + [row])[i], n);
    }
    if NameOf(row, n) {
      assert NameOf((rows + [row])[|rows|], n);
    }
  }

  /** The name a file moves to is new in the archive. */
  lemma TargetIsFree(place: Place, mid: Place, rows: seq<FileRow>, row: FileRow)
    requires Conserved(place, mid, rows) && NamesFree(place, rows + [row])
    ensures UniqueTarget(mid.archive, row.filename, row.sha256) !in mid.archive
  {
    var all, t := rows + [row], Prefixed(row.filename, row.sha256);
    assert all[|rows|] == row;
    forall i | 0 <= i < |rows| ensures !NameOf(rows[i], t) {
      assert all[i] == rows[i];
    }
    assert !NamedBy(rows, t);
  }

  lemma MoveGrowsArchive(place: Place, mid: Place, rows: seq<FileRow>, row: FileRow)
    requires ArchiveGrew(place, mid, rows)
    requires UniqueTarget(mid.archive, row.filename, row.sha256) !in mid.archive
    ensures ArchiveGrew(place, MoveOut(mid, row), rows + [row])
  {
    forall n ensures NamedBy(rows + [row], n) <==> NamedBy(rows, n) || NameOf(row, n) {
      NamedByMore(rows, row, n);
    }
    assert NameOf(row, UniqueTarget(mid.archive, row.filename, row.sha256));
    hide NamedBy, NameOf, UniqueTarget;
  }

  lemma MoveShrinksInbox(place: Place, mid: Place, rows: seq<FileRow>, row: FileRow)
    requires InboxShrank(place, mid, rows)
    requires UniqueTarget(mid.archive, row.filename, row.sha256) !in mid.archive
    ensures InboxShrank(place, MoveOut(mid, row), rows + [row])
  {
    ArchiveGrows(mid.archive, UniqueTarget(mid.archive, row.filename, row.sha256), row.sha256);
    hide Holds, UniqueTarget;
  }

  lemma MoveIsConserved(place: Place, mid: Place, rows: seq<FileRow>, row: FileRow)
    requires Conserved(place, mid, rows) && NamesFree(place, rows + [row])
    ensures Conserved(place, MoveOut(mid, row), rows + [row])
  {
    TargetIsFree(place, mid, rows, row);
    hide ArchiveGrew, InboxShrank, UniqueTarget;
    MoveGrowsArchive(place, mid, rows, row);
    MoveShrinksInbox(place, mid, rows, row);
  }

  lemma ArchiveGrows(folder: Folder, target: string, content: string)
    requires target !in folder
    ensures forall c :: Holds(folder, c) ==> Holds(folder[target := content], c)
    ensures Holds(folder[target := content], content)
  {
    var folder' := folder[target := content];
    forall c | Holds(folder, c) ensures Holds(folder', c) {
      var n :| n in folder && folder[n] == c;
      assert n in folder' && folder'[n] == c;
    }
    assert target in folder' && folder'[target] == content;
  }

  /** Nothing leaves the inbox but finished files, and their contents are in the archive
      afterwards, when the digest-prefixed names are not already used. */
  lemma {:induction false} MovesLoseNothing(place: Place, rows: seq<FileRow>)
    requires NamesFree(place, rows)
    ensures Conserved(place, MoveAll(place, rows), rows)
  {
    if rows != [] {
      hide Conserved, MoveOut;
      var k := |rows| - 1;
      assert rows == rows[..k] + [rows[k]];
      MovesLoseNothing(place, rows[..k]);
      MoveIsConserved(place, MoveAll(place, rows[..k]), rows[..k], rows[k]);
    }
  }

  predicate NameOf(row: FileRow, n: string) {
    n == row.filename || n == Prefixed(row.filename, row.sha256)
  }

  /** It happens to every finished file whose name and prefixed name are both taken by other
      contents: one of those contents is gone from the archive. */
  lemma MoveOverwritesHappens(row: FileRow, old1: string, old2: string)
    requires old2 != row.sha256
    ensures var t := Prefixed(row.filename, row.sha256);
            var place := Place(map[row.filename := row.sha256], map[row.filename := old1, t := old2]);
            && StillThere(place, row)
            && MoveOut(place, row).archive == map[row.filename := old1, t := row.sha256]
            && (old1 != old2 ==> !Holds(MoveOut(place, row).archive, old2))
  {
    var t := Prefixed(row.filename, row.sha256);
    assert |t| > |row.filename|;
  }

  /** A finished file leaves the inbox under its own name, or, where that is taken, under the
      first eight digits of its digest, an underscore and its name; nothing else moves. */
  lemma MovesUnder(place: Place, row: FileRow)
    requires StillThere(place, row) && |row.sha256| >= 8
    ensures MoveOut(place, row).inbox == map n | n in place.inbox && n != row.filename :: place.inbox[n]
    ensures var t := if row.filename !in place.archive then row.filename else row.sha256[..8] + "_" + row.filename;
            MoveOut(place, row).archive == place.archive[t := row.sha256]
  {
    assert Prefixed(row.filename, row.sha256) == row.sha256[..8] + "_" + row.filename;
  }

  /** A move replaces another archived file exactly when the name and its prefixed variant
      are both taken, the latter by other content. */
  lemma MoveOverwritesIff(place: Place, row: FileRow)
    requires StillThere(place, row)
    ensures (exists n :: n in place.archive && MoveOut(place, row).archive[n] != place.archive[n]) <==>
            var t := Prefixed(row.filename, row.sha256);
            row.filename in place.archive && t in place.archive && place.archive[t] != row.sha256
  {
    var t := Prefixed(row.filename, row.sha256);
    if row.filename in place.archive && t in place.archive && place.archive[t] != row.sha256 {
      assert MoveOut(place, row).archive[t] != place.archive[t];
    }
  }
}
