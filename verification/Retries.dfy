/** A pass with the HTTP API at work beside it: between any two commits of the pass an
    operator may reset failed or rejected records. An API retry is two transactions, the
    reset and the recompute of that file. */
module Retries {
  import opened Basics
  import opened Results
  import opened Store
  import opened Waves
  import opened Passes
  import opened FilePhases

  datatype Tables = Tables(files: Files, recs: Records)

  /** A commit of the pass, or a whole retry of records of one file. */
  datatype Write = Commit(x: Completion) | Retry(fileId: nat, ids: set<nat>)

  ghost function Written(t: Tables, w: Write): Tables {
    match w
    case Commit(x) => t.(recs := CommitResult(t.recs, x.id, x.result))
    case Retry(f, ids) => Tables(Recomputed(t.files, ResetAll(t.recs, ids), {f}), ResetAll(t.recs, ids))
  }

  ghost function WrittenAll(t: Tables, ws: seq<Write>): Tables {
    if ws == [] then t else Written(WrittenAll(t, ws[..|ws| - 1]), ws[|ws| - 1])
  }

  /** The files the commits touch. */
  function TouchedBy(recs: Records, ws: seq<Write>): set<nat> {
    set w | w in ws && w.Commit? && w.x.id in recs :: recs[w.x.id].fileId
  }

  ghost predicate OfFile(recs: Records, f: nat, ids: set<nat>) {
    forall id :: id in ids && id in recs ==> recs[id].fileId == f
  }

  /** Commits are of known records; a retry names records of its file. */
  ghost predicate Sensible(recs: Records, ws: seq<Write>) {
    forall w :: w in ws ==> if w.Commit? then w.x.id in recs else OfFile(recs, w.fileId, w.ids)
  }

  /** Same rows under the same keys, same files of records, same archive marks. */
  ghost predicate SameShape(a: Tables, b: Tables) {
    && a.files.Keys == b.files.Keys && a.recs.Keys == b.recs.Keys
    && (forall f :: f in a.files ==> a.files[f].archived == b.files[f].archived)
    && (forall id :: id in a.recs ==> a.recs[id].fileId == b.recs[id].fileId)
  }

  /** Archived rows are up to date unless their file is one of `but`. */
  ghost predicate UpToDateBut(t: Tables, but: set<nat>) {
    forall f :: f in t.files && t.files[f].archived && f !in but ==> UpToDate(t.files[f], t.recs, f)
  }

  lemma WriteKeeps(t: Tables, w: Write, but: set<nat>)
    requires Sensible(t.recs, [w]) && UpToDateBut(t, but)
    ensures SameShape(t, Written(t, w))
    ensures UpToDateBut(Written(t, w), but + TouchedBy(t.recs, [w]))
    ensures w.Retry? ==> UpToDateBut(Written(t, w), but - {w.fileId})
  {
    assert w in [w];
    var t' := Written(t, w);
    if w.Commit? {
      assert t.recs[w.x.id].fileId in TouchedBy(t.recs, [w]);
    }
    var own := if w.Commit? then t.recs[w.x.id].fileId else w.fileId;
    forall f | f in t.files && f != own ensures StatusesOf(t'.recs, f) == StatusesOf(t.recs, f) {
      UntouchedFile(t.recs, t'.recs, f);
    }
    hide StatusesOf;
  }

  lemma LastWrite(recs: Records, ws: seq<Write>)
    requires ws != []
    ensures var n := |ws| - 1; TouchedBy(recs, ws) == TouchedBy(recs, ws[..n]) + TouchedBy(recs, [ws[n]])
    ensures Sensible(recs, ws) ==> Sensible(recs, ws[..|ws| - 1]) && Sensible(recs, [ws[|ws| - 1]])
  {
    assert ws == ws[..|ws| - 1] + [ws[|ws| - 1]];
  }

  lemma SameFiles(a: Records, b: Records, ws: seq<Write>)
    requires a.Keys == b.Keys && forall id :: id in a ==> a[id].fileId == b[id].fileId
    ensures TouchedBy(a, ws) == TouchedBy(b, ws) && (Sensible(a, ws) <==> Sensible(b, ws))
  {
    assert forall f, ids :: OfFile(a, f, ids) <==> OfFile(b, f, ids);
  }

  lemma {:induction false} WritesKeep(t: Tables, ws: seq<Write>, but: set<nat>)
    requires Sensible(t.recs, ws) && UpToDateBut(t, but)
    ensures SameShape(t, WrittenAll(t, ws))
    ensures UpToDateBut(WrittenAll(t, ws), but + TouchedBy(t.recs, ws))
  {
    hide Written, Sensible, TouchedBy, UpToDateBut;
    if ws == [] {
      NothingTouched(t, but);
    } else {
      var n := |ws| - 1;
      LastWrite(t.recs, ws);
      WritesKeep(t, ws[..n], but);
      var mid := WrittenAll(t, ws[..n]);
      SameFiles(t.recs, mid.recs, [ws[n]]);
      WriteKeeps(mid, ws[n], but + TouchedBy(t.recs, ws[..n]));
      assert but + TouchedBy(t.recs, ws) == but + TouchedBy(t.recs, ws[..n]) + TouchedBy(t.recs, [ws[n]]);
    }
  }

  lemma NothingTouched(t: Tables, but: set<nat>)
    requires UpToDateBut(t, but)
    ensures UpToDateBut(t, but + TouchedBy(t.recs, []))
  {
  }

  // --- one row through any writes ----------------------------------------------------------

  ghost predicate NoRetryOf(g: nat, ws: seq<Write>) {
    forall w :: w in ws ==> !(w.Retry? && w.fileId == g)
  }

  /** The records as they were when the row of `f` was last recomputed. */
  ghost function LastSeen(t: Tables, ws: seq<Write>, f: nat): Records {
    if ws == [] then t.recs
    else if ws[|ws| - 1].Retry? && ws[|ws| - 1].fileId == f then WrittenAll(t, ws).recs
    else LastSeen(t, ws[..|ws| - 1], f)
  }

  lemma WriteShape(t: Tables, w: Write)
    ensures SameShape(t, Written(t, w))
  {
  }

  lemma {:induction false} WritesShape(t: Tables, ws: seq<Write>)
    ensures SameShape(t, WrittenAll(t, ws))
  {
    hide Written;
    if ws != [] {
      var n := |ws| - 1;
      WritesShape(t, ws[..n]);
      WriteShape(WrittenAll(t, ws[..n]), ws[n]);
    }
  }

  lemma WriteOfAnother(t: Tables, w: Write, f: nat)
    requires f in t.files && !(w.Retry? && w.fileId == f)
    ensures f in Written(t, w).files && Written(t, w).files[f] == t.files[f]
  {
  }

  lemma RetryIsSeen(t: Tables, w: Write, f: nat)
    requires f in t.files && w.Retry? && w.fileId == f
    ensures f in Written(t, w).files && UpToDate(Written(t, w).files[f], Written(t, w).recs, f)
  {
    hide TrueStatus;
  }

  /** A row is up to date for the records it last saw. */
  lemma {:induction false} RowSeen(t: Tables, ws: seq<Write>, f: nat)
    requires f in t.files && (UpToDate(t.files[f], t.recs, f) || !NoRetryOf(f, ws))
    ensures f in WrittenAll(t, ws).files && UpToDate(WrittenAll(t, ws).files[f], LastSeen(t, ws, f), f)
  {
    if ws != [] {
      hide Written, UpToDate;
      var n := |ws| - 1;
      var mid := WrittenAll(t, ws[..n]);
      WritesShape(t, ws[..n]);
      if ws[n].Retry? && ws[n].fileId == f {
        RetryIsSeen(mid, ws[n], f);
      } else {
        assert ws == ws[..n] + [ws[n]];
        RowSeen(t, ws[..n], f);
        WriteOfAnother(mid, ws[n], f);
      }
    }
  }

  lemma {:induction false} RowUnseen(t: Tables, ws: seq<Write>, f: nat)
    requires f in t.files && NoRetryOf(f, ws)
    ensures f in WrittenAll(t, ws).files && WrittenAll(t, ws).files[f] == t.files[f]
    ensures LastSeen(t, ws, f) == t.recs
  {
    if ws != [] {
      hide Written;
      var n := |ws| - 1;
      assert ws == ws[..n] + [ws[n]];
      RowUnseen(t, ws[..n], f);
      WriteOfAnother(WrittenAll(t, ws[..n]), ws[n], f);
    }
  }

  lemma WriteElsewhere(t: Tables, w: Write, f: nat)
    requires Sensible(t.recs, [w]) && f !in TouchedBy(t.recs, [w]) && !(w.Retry? && w.fileId == f)
    ensures TrueStatus(Written(t, w).recs, f) == TrueStatus(t.recs, f)
  {
    assert w in [w];
    UntouchedFile(t.recs, Written(t, w).recs, f);
  }

  /** Without a commit to the file its records add up to what its row last saw. */
  lemma {:induction false} SeenStays(t: Tables, ws: seq<Write>, f: nat)
    requires Sensible(t.recs, ws) && f !in TouchedBy(t.recs, ws)
    ensures TrueStatus(LastSeen(t, ws, f), f) == TrueStatus(WrittenAll(t, ws).recs, f)
  {
    if ws != [] {
      hide Written, Sensible, TouchedBy, TrueStatus;
      var n := |ws| - 1;
      if !(ws[n].Retry? && ws[n].fileId == f) {
        LastWrite(t.recs, ws);
        SeenStays(t, ws[..n], f);
        var mid := WrittenAll(t, ws[..n]);
        WritesShape(t, ws[..n]);
        SameFiles(t.recs, mid.recs, [ws[n]]);
        WriteElsewhere(mid, ws[n], f);
      }
    }
  }

  // --- a pass over any tables ------------------------------------------------------------------

  /** What a completed pass leaves: its writes, then its scoped recompute. */
  ghost function AfterPass(t: Tables, ws: seq<Write>): Tables {
    var t' := WrittenAll(t, ws);
    t'.(files := Recomputed(t'.files, t'.recs, Scope(t'.files, TouchedBy(t.recs, ws))))
  }

  lemma RecomputedRow(files: Files, recs: Records, scope: set<nat>, f: nat)
    requires f in files
    ensures f in Recomputed(files, recs, scope)
    ensures f in scope ==> UpToDate(Recomputed(files, recs, scope)[f], recs, f)
    ensures f !in scope ==> Recomputed(files, recs, scope)[f] == files[f]
  {
    hide TrueStatus;
  }

  /** Operators may retry any records of any files, archived ones too, at any point between
      the commits of a pass. Afterwards a row is out of date exactly if it was before, is
      archived, and the pass neither committed to its file nor saw a retry of it. */
  lemma RetriesDoNoHarm(t: Tables, ws: seq<Write>, f: nat)
    requires Sensible(t.recs, ws) && f in t.files
    ensures f in AfterPass(t, ws).files
    ensures !UpToDate(AfterPass(t, ws).files[f], AfterPass(t, ws).recs, f) <==>
            t.files[f].archived && !UpToDate(t.files[f], t.recs, f) && f !in TouchedBy(t.recs, ws) && NoRetryOf(f, ws)
  {
    hide UpToDate, TouchedBy, Sensible, WrittenAll, LastSeen, NoRetryOf, Recomputed;
    var t' := WrittenAll(t, ws);
    WritesShape(t, ws);
    RecomputedRow(t'.files, t'.recs, Scope(t'.files, TouchedBy(t.recs, ws)), f);
    if t.files[f].archived && f !in TouchedBy(t.recs, ws) {
      SeenStays(t, ws, f);
      if UpToDate(t.files[f], t.recs, f) || !NoRetryOf(f, ws) {
        RowSeen(t, ws, f);
        StillUpToDateIff(t'.files[f], LastSeen(t, ws, f), t'.recs, f);
      } else {
        RowUnseen(t, ws, f);
        WrongStaysWrong(t.files[f], t.recs, t'.recs, f);
      }
    }
  }

  lemma WrongStaysWrong(row: FileRow, a: Records, b: Records, f: nat)
    requires TrueStatus(a, f) == TrueStatus(b, f)
    ensures UpToDate(row, a, f) <==> UpToDate(row, b, f)
  {
  }

  /** So from archived rows up to date the scoped recompute is as good as recomputing every
      file. */
  lemma ScopedIsFull(t: Tables, ws: seq<Write>)
    requires ArchivedUpToDate(t.files, t.recs) && Sensible(t.recs, ws)
    ensures var t' := WrittenAll(t, ws);
            && AfterPass(t, ws).files == Recomputed(t'.files, t'.recs, t'.files.Keys)
            && forall f :: f in t.files ==> f in AfterPass(t, ws).files
                                            && UpToDate(AfterPass(t, ws).files[f], AfterPass(t, ws).recs, f)
  {
    hide UpToDate, Recomputed, WrittenAll, Sensible, TouchedBy, Scope;
    var t' := WrittenAll(t, ws);
    WritesShape(t, ws);
    forall f | f in t.files
      ensures f in AfterPass(t, ws).files && UpToDate(AfterPass(t, ws).files[f], AfterPass(t, ws).recs, f)
    {
      RetriesDoNoHarm(t, ws, f);
    }
    AllUpToDateIsFull(t'.files, t'.recs, Scope(t'.files, TouchedBy(t.recs, ws)));
  }

  lemma AllUpToDateIsFull(files: Files, recs: Records, scope: set<nat>)
    requires forall f :: f in files ==> f in Recomputed(files, recs, scope)
                                        && UpToDate(Recomputed(files, recs, scope)[f], recs, f)
    ensures Recomputed(files, recs, scope) == Recomputed(files, recs, files.Keys)
  {
    hide TrueStatus;
    forall f | f in files ensures Recomputed(files, recs, scope)[f] == Recomputed(files, recs, files.Keys)[f] {
      assert UpToDate(Recomputed(files, recs, scope)[f], recs, f);
    }
  }

  // --- a pass that dies before its recompute ------------------------------------------------------

  /** From archived rows up to date, a pass writes `died` and dies before its recompute;
      a later one writes `ws` and completes. Then a row is out of date exactly if it is
      archived, the records of its file no longer add up to what it last saw before the
      death, and the later pass neither commits to the file nor sees a retry of it. */
  lemma DeathIff(t: Tables, died: seq<Write>, ws: seq<Write>, f: nat)
    requires ArchivedUpToDate(t.files, t.recs) && Sensible(t.recs, died) && Sensible(t.recs, ws) && f in t.files
    ensures var mid := WrittenAll(t, died);
            && f in AfterPass(mid, ws).files
            && (!UpToDate(AfterPass(mid, ws).files[f], AfterPass(mid, ws).recs, f) <==>
                && t.files[f].archived && f !in TouchedBy(t.recs, ws) && NoRetryOf(f, ws)
                && TrueStatus(mid.recs, f) != TrueStatus(LastSeen(t, died, f), f))
    ensures NoRetryOf(f, died) ==> LastSeen(t, died, f) == t.recs
  {
    hide UpToDate, TouchedBy, Sensible, WrittenAll, LastSeen, NoRetryOf, AfterPass, TrueStatus;
    var mid := WrittenAll(t, died);
    WritesShape(t, died);
    SameFiles(t.recs, mid.recs, ws);
    RetriesDoNoHarm(mid, ws, f);
    if t.files[f].archived {
      RowSeen(t, died, f);
      StillUpToDateIff(mid.files[f], LastSeen(t, died, f), mid.recs, f);
    }
    if NoRetryOf(f, died) {
      RowUnseen(t, died, f);
    }
  }

  /** A pass, completed or dead before its recompute. */
  datatype Round = Round(ws: seq<Write>, completed: bool)

  ghost function AfterRounds(t: Tables, rounds: seq<Round>): Tables {
    if rounds == [] then t
    else
      var before, r := AfterRounds(t, rounds[..|rounds| - 1]), rounds[|rounds| - 1];
      if r.completed then AfterPass(before, r.ws) else WrittenAll(before, r.ws)
  }

  /** No number of later passes mends such a row, unless one commits to the file or an
      operator retries it. */
  lemma {:induction false} NothingElseMends(t: Tables, rounds: seq<Round>, f: nat)
    requires f in t.files && t.files[f].archived && !UpToDate(t.files[f], t.recs, f)
    requires forall r :: r in rounds ==> Sensible(t.recs, r.ws) && f !in TouchedBy(t.recs, r.ws) && NoRetryOf(f, r.ws)
    ensures SameShape(t, AfterRounds(t, rounds)) && f in AfterRounds(t, rounds).files
    ensures AfterRounds(t, rounds).files[f] == t.files[f]
    ensures !UpToDate(AfterRounds(t, rounds).files[f], AfterRounds(t, rounds).recs, f)
  {
    if rounds != [] {
      hide UpToDate, TouchedBy, Sensible, WrittenAll, NoRetryOf, AfterPass, SameShape;
      var n := |rounds| - 1;
      assert forall r :: r in rounds[..n] ==> r in rounds;
      NothingElseMends(t, rounds[..n], f);
      var before, ws := AfterRounds(t, rounds[..n]), rounds[n].ws;
      assert rounds[n] in rounds;
      SameShapeFiles(t, before, ws, f);
      OneRound(before, ws, f);
      SameShapeTwice(t, before, WrittenAll(before, ws));
      SameShapeTwice(t, before, AfterPass(before, ws));
    }
  }

  lemma SameShapeFiles(a: Tables, b: Tables, ws: seq<Write>, f: nat)
    requires SameShape(a, b) && f in a.files
    ensures TouchedBy(a.recs, ws) == TouchedBy(b.recs, ws) && (Sensible(a.recs, ws) <==> Sensible(b.recs, ws))
    ensures f in b.files && a.files[f].archived == b.files[f].archived
  {
    SameFiles(a.recs, b.recs, ws);
  }

  lemma SameShapeTwice(a: Tables, b: Tables, c: Tables)
    requires SameShape(a, b)
    ensures SameShape(b, c) ==> SameShape(a, c)
  {
  }

  lemma OneRound(t: Tables, ws: seq<Write>, f: nat)
    requires f in t.files && t.files[f].archived && !UpToDate(t.files[f], t.recs, f)
    requires Sensible(t.recs, ws) && f !in TouchedBy(t.recs, ws) && NoRetryOf(f, ws)
    ensures SameShape(t, WrittenAll(t, ws)) && SameShape(t, AfterPass(t, ws))
    ensures f in WrittenAll(t, ws).files && f in AfterPass(t, ws).files
    ensures WrittenAll(t, ws).files[f] == AfterPass(t, ws).files[f] == t.files[f]
    ensures AfterPass(t, ws).recs == WrittenAll(t, ws).recs && !UpToDate(t.files[f], WrittenAll(t, ws).recs, f)
  {
    WritesShape(t, ws);
    RowUnseen(t, ws, f);
    SeenStays(t, ws, f);
    var after, touched := WrittenAll(t, ws), TouchedBy(t.recs, ws);
    WrongStaysWrong(t.files[f], t.recs, after.recs, f);
    PassKeepsShape(after, touched);
    RecomputedRow(after.files, after.recs, Scope(after.files, touched), f);
    hide UpToDate, TouchedBy, Sensible, WrittenAll, LastSeen, NoRetryOf, Recomputed;
  }

  lemma PassKeepsShape(t: Tables, touched: set<nat>)
    ensures SameShape(t, t.(files := Recomputed(t.files, t.recs, Scope(t.files, touched))))
  {
  }

  /** It happens: a file archived as rejected; its record is retried through the API, sent by
      a pass, and the pass dies before its recompute. The row says pending for good: the
      record is sent, so no later pass commits to the file. */
  lemma DeathHappens(line: Line, cap: nat)
    ensures var t := Tables(map[0 := FileRow("f", "d", 1, Rejected, true, true)],
                            map[0 := RecordRow(0, 1, line, Rejected, 1, false)]);
            var died := [Retry(0, {0}), Commit(Completion(0, UploadResult(Sent)))];
            var end := AfterPass(WrittenAll(t, died), []);
            && ArchivedUpToDate(t.files, t.recs) && Sensible(t.recs, died)
            && 0 in end.files && end.files[0].status == Pending && !UpToDate(end.files[0], end.recs, 0)
            && 0 in end.recs && end.recs[0].status == Sent && !Sendable(end.recs[0], cap)
  {
    var t := Tables(map[0 := FileRow("f", "d", 1, Rejected, true, true)],
                    map[0 := RecordRow(0, 1, line, Rejected, 1, false)]);
    var retry, commit := Retry(0, {0}), Commit(Completion(0, UploadResult(Sent)));
    OneRecord(t.recs[0]);
    OneRecord(RecordRow(0, 1, line, Pending, 0, false));
    OneRecord(RecordRow(0, 1, line, Sent, 1, true));
    hide StatusesOf;
    var t1 := Written(t, retry);
    var t2 := Written(t1, commit);
    assert t1.recs == map[0 := RecordRow(0, 1, line, Pending, 0, false)];
    assert t2.recs == map[0 := RecordRow(0, 1, line, Sent, 1, true)];
    assert WrittenAll(t, [retry]) == t1 by { assert [retry][..0] == []; }
    assert WrittenAll(t, [retry, commit]) == t2 by { assert [retry, commit][..1] == [retry]; }
    assert t2.files[0].status == Pending;
  }

  lemma OneRecord(row: RecordRow)
    ensures StatusesOf(map[0 := row], row.fileId) == {row.status}
  {
    var recs := map[0 := row];
    assert 0 in recs && recs[0].status == row.status;
  }

  // --- a retry caught between its two transactions --------------------------------------------

  /** A reset that changes what the file's records add up to: the last failed record goes,
      or, with none failed, a rejected one goes and does not leave the file partial as it
      was. */
  ghost predicate ResetShows(recs: Records, f: nat, ids: set<nat>) {
    if SomeAre(recs, f, {Failed}) then
      forall id :: id in recs && recs[id].fileId == f && recs[id].status == Failed ==> id in ids
    else
      && (exists id :: id in recs && recs[id].fileId == f && recs[id].status == Rejected && id in ids)
      && !(SomeAre(recs, f, {Pending}) && SomeRemain(recs, f, ids))
  }

  /** Some finished record of the file is not reset. */
  ghost predicate SomeRemain(recs: Records, f: nat, ids: set<nat>) {
    exists id :: id in recs && recs[id].fileId == f
                 && (recs[id].status == Sent || (recs[id].status == Rejected && id !in ids))
  }

  lemma AfterReset(recs: Records, f: nat, ids: set<nat>)
    ensures var recs' := ResetAll(recs, ids);
            && (SomeAre(recs', f, {Failed}) <==>
                exists id :: id in recs && recs[id].fileId == f && recs[id].status == Failed && id !in ids)
            && (SomeAre(recs', f, {Sent, Rejected}) <==> SomeRemain(recs, f, ids))
            && (SomeAre(recs', f, {Pending}) <==>
                SomeAre(recs, f, {Pending})
                || exists id :: id in recs && recs[id].fileId == f
                             && recs[id].status in {Failed, Rejected} && id in ids)
  {
    var recs' := ResetAll(recs, ids);
    forall s | SomeAre(recs', f, {s}) ensures exists id :: id in recs && recs'[id].status == s && recs[id].fileId == f {
      var id :| id in recs' && recs'[id].fileId == f && recs'[id].status in {s};
    }
    forall id | id in recs && recs[id].fileId == f ensures SomeAre(recs', f, {recs'[id].status}) {
      assert recs'[id].fileId == f;
    }
  }

  lemma StatusByParts(recs: Records, f: nat)
    ensures TrueStatus(recs, f) == if SomeAre(recs, f, {Failed}) then Failed
                                   else if SomeAre(recs, f, {Pending}) then
                                     (if SomeAre(recs, f, {Sent, Rejected}) then Partial else Pending)
                                   else if SomeAre(recs, f, {Rejected}) then Rejected
                                   else Sent
  {
    AggregateMeans(recs, f);
    AggregateIsTerminalIff(recs, f);
    assert SomeAre(recs, f, {Sent, Failed, Rejected}) <==>
           SomeAre(recs, f, {Failed}) || SomeAre(recs, f, {Sent, Rejected});
    assert AllTerminal(recs, f) <==> !SomeAre(recs, f, {Failed}) && !SomeAre(recs, f, {Pending});
    hide Aggregate, StatusesOf, SomeAre, AllTerminal;
  }

  /** A reset that hits nothing of the file leaves its records alone. */
  lemma ResetMisses(recs: Records, f: nat, ids: set<nat>)
    requires forall id :: id in recs && recs[id].fileId == f && id in ids ==> recs[id].status !in {Failed, Rejected}
    ensures TrueStatus(ResetAll(recs, ids), f) == TrueStatus(recs, f)
  {
    UntouchedFile(recs, ResetAll(recs, ids), f);
  }

  lemma ResetShowsIff(recs: Records, f: nat, ids: set<nat>)
    ensures TrueStatus(ResetAll(recs, ids), f) != TrueStatus(recs, f) <==> ResetShows(recs, f, ids)
  {
    AfterReset(recs, f, ids);
    StatusByParts(recs, f);
    StatusByParts(ResetAll(recs, ids), f);
    if forall id :: id in recs && recs[id].fileId == f && id in ids ==> recs[id].status !in {Failed, Rejected} {
      ResetMisses(recs, f, ids);
    } else {
      assert SomeAre(recs, f, {Failed}) || SomeAre(recs, f, {Rejected});
      assert SomeAre(recs, f, {Rejected}) ==> SomeAre(recs, f, {Sent, Rejected});
    }
  }

  /** One retry caught half-way: reset of `ids` of file `g` between the writes `before` and
      `after`, its own recompute still to come when the pass recomputes. */
  ghost function HalfRetried(t: Tables, before: seq<Write>, ids: set<nat>, after: seq<Write>): Tables {
    var mid := WrittenAll(t, before);
    WrittenAll(mid.(recs := ResetAll(mid.recs, ids)), after)
  }

  /** Then the pass leaves every row up to date but possibly that file's; and that one is out
      of date exactly when the file was archived, the pass touched none of its records, and
      the reset changed what they add up to. The retry's own recompute mends it. */
  lemma HalfRetryIff(t: Tables, before: seq<Write>, g: nat, ids: set<nat>, after: seq<Write>)
    requires ArchivedUpToDate(t.files, t.recs) && Sensible(t.recs, before + after) && OfFile(t.recs, g, ids)
    requires NoRetryOf(g, after) && g in t.files
    ensures var mid, t' := WrittenAll(t, before), HalfRetried(t, before, ids, after);
            var files := Recomputed(t'.files, t'.recs, Scope(t'.files, TouchedBy(t.recs, before + after)));
            && files.Keys == t.files.Keys
            && (forall f :: f in files && f != g ==> UpToDate(files[f], t'.recs, f))
            && (!UpToDate(files[g], t'.recs, g) <==>
                t.files[g].archived && g !in TouchedBy(t.recs, before + after) && ResetShows(mid.recs, g, ids))
            && (forall f :: f in files ==> UpToDate(Recomputed(files, t'.recs, {g})[f], t'.recs, f))
  {
    hide UpToDateBut, Sensible, TouchedBy, ResetShows, HalfRetried, ResetAll, Recomputed,
         Scope, UpToDate, ArchivedUpToDate;
    var mid, t' := WrittenAll(t, before), HalfRetried(t, before, ids, after);
    var touched := TouchedBy(t.recs, before + after);
    HalfWay(t, before, g, ids, after);
    OthersRepaired(t', touched, g);
    if t.files[g].archived && g !in touched {
      ResetShowsIff(mid.recs, g, ids);
      StillUpToDateIff(t'.files[g], mid.recs, t'.recs, g);
    }
  }

  /** What is known when the pass recomputes. */
  lemma HalfWay(t: Tables, before: seq<Write>, g: nat, ids: set<nat>, after: seq<Write>)
    requires ArchivedUpToDate(t.files, t.recs) && Sensible(t.recs, before + after) && OfFile(t.recs, g, ids)
    requires NoRetryOf(g, after) && g in t.files
    ensures var mid, t' := WrittenAll(t, before), HalfRetried(t, before, ids, after);
            var touched := TouchedBy(t.recs, before + after);
            && SameShape(t, t') && UpToDateBut(t', touched + {g})
            && (t.files[g].archived && g !in touched ==>
                  UpToDate(t'.files[g], mid.recs, g)
                  && TrueStatus(t'.recs, g) == TrueStatus(ResetAll(mid.recs, ids), g))
  {
    assert UpToDateBut(t, {});
    TouchedTwice(t.recs, before, after);
    hide UpToDateBut, Sensible, TouchedBy, WrittenAll, NoRetryOf, ResetAll, UpToDate, TrueStatus, ArchivedUpToDate,
         SameShape, OfFile;
    var mid, but := WrittenAll(t, before), TouchedBy(t.recs, before);
    var reset := mid.(recs := ResetAll(mid.recs, ids));
    WritesKeep(t, before, {});
    assert {} + but == but;
    SameTables(t, mid, after, g, ids);
    ResetKeeps(mid, g, ids, but);
    SameTables(mid, reset, after, g, ids);
    WritesKeep(reset, after, but + {g});
    Regroup(but, TouchedBy(t.recs, after), g);
    ThreeShapes(t, mid, reset, WrittenAll(reset, after));
    if t.files[g].archived && g !in TouchedBy(t.recs, before + after) {
      SeenHalfWay(mid, reset, g, after, but);
    }
  }

  /** What tables of one shape agree on. */
  lemma SameTables(a: Tables, b: Tables, ws: seq<Write>, g: nat, ids: set<nat>)
    requires SameShape(a, b) && g in a.files
    ensures TouchedBy(a.recs, ws) == TouchedBy(b.recs, ws) && (Sensible(a.recs, ws) <==> Sensible(b.recs, ws))
    ensures OfFile(a.recs, g, ids) <==> OfFile(b.recs, g, ids)
    ensures g in b.files && a.files[g].archived == b.files[g].archived
  {
    SameFiles(a.recs, b.recs, ws);
    SameGroup(a.recs, b.recs, g, ids);
    hide TouchedBy, Sensible, OfFile;
  }

  lemma ThreeShapes(a: Tables, b: Tables, c: Tables, d: Tables)
    requires SameShape(a, b) && SameShape(b, c) && SameShape(c, d)
    ensures SameShape(a, d)
  {
  }

  /** The file itself, if archived and not committed to. */
  lemma SeenHalfWay(mid: Tables, reset: Tables, g: nat, after: seq<Write>, but: set<nat>)
    requires reset.files == mid.files && g in mid.files && mid.files[g].archived && g !in but && UpToDateBut(mid, but)
    requires Sensible(reset.recs, after) && NoRetryOf(g, after) && g !in TouchedBy(reset.recs, after)
    ensures var t' := WrittenAll(reset, after);
            && g in t'.files && UpToDate(t'.files[g], mid.recs, g)
            && TrueStatus(t'.recs, g) == TrueStatus(reset.recs, g)
  {
    hide Sensible, TouchedBy, WrittenAll, NoRetryOf, UpToDate, TrueStatus, UpToDateBut;
    RowUnseen(reset, after, g);
    SeenStays(reset, after, g);
    Unexcused(mid, but, g);
  }

  lemma Regroup(a: set<nat>, b: set<nat>, g: nat)
    ensures a + {g} + b == a + b + {g}
  {
  }

  lemma SameGroup(a: Records, b: Records, g: nat, ids: set<nat>)
    requires a.Keys == b.Keys && forall id :: id in a ==> a[id].fileId == b[id].fileId
    ensures OfFile(a, g, ids) <==> OfFile(b, g, ids)
  {
  }

  /** A row up to date for one state of the records is so for another exactly if they add up
      to the same status. */
  lemma StillUpToDateIff(row: FileRow, a: Records, b: Records, f: nat)
    requires UpToDate(row, a, f)
    ensures UpToDate(row, b, f) <==> TrueStatus(a, f) == TrueStatus(b, f)
  {
    hide TrueStatus;
  }

  lemma Unexcused(t: Tables, but: set<nat>, f: nat)
    requires UpToDateBut(t, but) && f in t.files && t.files[f].archived && f !in but
    ensures UpToDate(t.files[f], t.recs, f)
  {
  }

  lemma TouchedTwice(recs: Records, before: seq<Write>, after: seq<Write>)
    ensures TouchedBy(recs, before + after) == TouchedBy(recs, before) + TouchedBy(recs, after)
    ensures Sensible(recs, before + after) <==> Sensible(recs, before) && Sensible(recs, after)
  {
    assert forall w :: w in before + after <==> w in before || w in after;
  }

  lemma ResetKeeps(t: Tables, g: nat, ids: set<nat>, but: set<nat>)
    requires UpToDateBut(t, but) && OfFile(t.recs, g, ids)
    ensures var t' := t.(recs := ResetAll(t.recs, ids)); SameShape(t, t') && UpToDateBut(t', but + {g})
  {
    var recs' := ResetAll(t.recs, ids);
    forall f | f in t.files && f != g ensures StatusesOf(recs', f) == StatusesOf(t.recs, f) {
      UntouchedFile(t.recs, recs', f);
    }
    hide StatusesOf;
  }

  /** The scoped recompute repairs all files but `g`; recomputing `g` as well repairs all. */
  lemma OthersRepaired(t: Tables, touched: set<nat>, g: nat)
    requires UpToDateBut(t, touched + {g})
    ensures var files := Recomputed(t.files, t.recs, Scope(t.files, touched));
            && (forall f :: f in files && f != g ==> UpToDate(files[f], t.recs, f))
            && (g in files && (!t.files[g].archived || g in touched) ==> UpToDate(files[g], t.recs, g))
            && (g in files && t.files[g].archived && g !in touched ==> files[g] == t.files[g])
            && files.Keys == t.files.Keys
            && (forall f :: f in files ==> UpToDate(Recomputed(files, t.recs, {g})[f], t.recs, f))
  {
    hide TrueStatus;
  }

  /** It happens: a file archived as rejected, its one record reset, the pass recomputing
      before the API does. The row still says rejected while the record is pending. */
  lemma HalfRetryHappens(line: Line)
    ensures var t := Tables(map[0 := FileRow("f", "d", 1, Rejected, true, true)],
                            map[0 := RecordRow(0, 1, line, Rejected, 1, false)]);
            && ArchivedUpToDate(t.files, t.recs)
            && var t' := HalfRetried(t, [], {0}, []);
               !UpToDate(Recomputed(t'.files, t'.recs, Scope(t'.files, {}))[0], t'.recs, 0)
  {
    var t := Tables(map[0 := FileRow("f", "d", 1, Rejected, true, true)],
                    map[0 := RecordRow(0, 1, line, Rejected, 1, false)]);
    assert StatusesOf(t.recs, 0) == {Rejected} by { assert t.recs[0].status == Rejected; }
    HalfRetryIff(t, [], 0, {0}, []);
    assert t.recs[0].fileId == 0;
    assert TouchedBy(t.recs, [] + []) == {};
  }
}
