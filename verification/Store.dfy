/** The SQLite tables `files` and `records`, and every function that writes them.
    Each call is one committed transaction. The functions say what a statement does
    to the tables; the `Db` class is the connection that executes it. */
module Store {
  import opened Basics
  import opened Results

  /** A line of an ingested file, and the size of the envelope it is posted in. */
  datatype Line = Line(text: string, envelopeBytes: nat)

  datatype RecordRow = RecordRow(
    fileId: nat, lineNo: nat, line: Line, status: RecordStatus, attempts: nat, sentAt: bool)

  datatype FileRow = FileRow(
    filename: string, sha256: string, linesTotal: nat, status: Status, completed: bool, archived: bool)

  type Records = map<nat, RecordRow>
  type Files = map<nat, FileRow>

  // --- statements on `records` -----------------------------------------------------

  predicate Sendable(row: RecordRow, retryCap: nat) {
    row.status == Pending || (row.status == Failed && row.attempts < retryCap)
  }

  /** `update_record_result`: an outage does not burn an attempt. */
  function WithResult(row: RecordRow, r: UploadResult): RecordRow {
    row.(status := r.status,
         attempts := row.attempts + (if r.isNetworkError then 0 else 1),
         sentAt := r.status == Sent)
  }

  function CommitResult(recs: Records, id: nat, r: UploadResult): Records {
    if id in recs then recs[id := WithResult(recs[id], r)] else recs
  }

  /** `reset_records` on one row: a failed or rejected record starts over. */
  function ResetRow(row: RecordRow): RecordRow {
    if row.status == Failed || row.status == Rejected then row.(status := Pending, attempts := 0) else row
  }

  function ResetAll(recs: Records, ids: set<nat>): Records {
    map id | id in recs :: if id in ids then ResetRow(recs[id]) else recs[id]
  }

  function NewRecord(fileId: nat, lineNo: nat, line: Line): RecordRow {
    RecordRow(fileId, lineNo, line, Pending, 0, false)
  }

  /** Ids `first, first + 1, ...` for the lines of one file. */
  function NewRecords(fileId: nat, first: nat, lines: seq<Line>): (m: Records)
    ensures forall id :: id in m <==> first <= id < first + |lines|
    ensures forall id :: id in m ==> m[id] == NewRecord(fileId, id - first + 1, lines[id - first])
  {
    if lines == [] then map[]
    else
      var n := |lines| - 1;
      NewRecords(fileId, first, lines[..n])[first + n := NewRecord(fileId, n + 1, lines[n])]
  }

  lemma OneMoreRecord(recs: Records, fileId: nat, first: nat, lines: seq<Line>, i: nat)
    requires i < |lines|
    ensures recs + NewRecords(fileId, first, lines[..i + 1])
            == (recs + NewRecords(fileId, first, lines[..i]))[first + i := NewRecord(fileId, i + 1, lines[i])]
  {
    assert lines[..i + 1][..i] == lines[..i];
  }

  // --- the order records are sent in ---------------------------------------------------

  predicate Precedes(a: RecordRow, b: RecordRow) {
    a.fileId < b.fileId || (a.fileId == b.fileId && a.lineNo < b.lineNo)
  }

  ghost predicate Distinct(s: seq<nat>) {
    forall i, j :: 0 <= i < j < |s| ==> s[i] != s[j]
  }

  ghost predicate InOrder(recs: Records, s: seq<nat>) {
    && (forall i :: 0 <= i < |s| ==> s[i] in recs)
    && (forall i, j :: 0 <= i < j < |s| ==> !Precedes(recs[s[j]], recs[s[i]]))
  }

  /** Exactly the sendable records, each once, by file and line. */
  ghost predicate IsSendList(recs: Records, retryCap: nat, s: seq<nat>) {
    && Distinct(s) && InOrder(recs, s)
    && (forall id :: id in s <==> id in recs && Sendable(recs[id], retryCap))
  }

  /** A send list, spelled out: by file, within a file by line, each record once that is
      pending, or failed with attempts left. */
  lemma SendListIff(recs: Records, retryCap: nat, s: seq<nat>)
    ensures IsSendList(recs, retryCap, s) <==>
            && (forall i, j :: 0 <= i < j < |s| ==> s[i] != s[j])
            && (forall id :: id in s <==>
                  id in recs && (recs[id].status == Pending
                                 || (recs[id].status == Failed && recs[id].attempts + 1 <= retryCap)))
            && (forall i, j :: 0 <= i < j < |s| ==>
                  && recs[s[i]].fileId <= recs[s[j]].fileId
                  && (recs[s[i]].fileId == recs[s[j]].fileId ==> recs[s[i]].lineNo <= recs[s[j]].lineNo))
  {
    assert IsSendList(recs, retryCap, s) ==> forall i :: 0 <= i < |s| ==> s[i] in recs;
  }

  function Insert(recs: Records, s: seq<nat>, id: nat): seq<nat>
    requires id in recs && forall x :: x in s ==> x in recs
  {
    if s == [] || Precedes(recs[id], recs[s[0]]) then [id] + s
    else [s[0]] + Insert(recs, s[1..], id)
  }

  lemma PrecedesIsAnOrder(a: RecordRow, b: RecordRow, c: RecordRow)
    requires Precedes(a, b) && !Precedes(c, b)
    ensures !Precedes(c, a) && !Precedes(b, a)
  {
  }

  lemma {:induction false} InsertKeepsOrder(recs: Records, s: seq<nat>, id: nat)
    requires id in recs && InOrder(recs, s) && Distinct(s) && id !in s
    ensures var t := Insert(recs, s, id);
            InOrder(recs, t) && Distinct(t) && forall x :: x in t <==> x in s || x == id
  {
    hide Precedes;
    if s == [] {
    } else if Precedes(recs[id], recs[s[0]]) {
      forall j | 0 <= j < |s| ensures !Precedes(recs[s[j]], recs[id]) {
        assert j > 0 ==> !Precedes(recs[s[j]], recs[s[0]]);
        PrecedesItself(recs[s[0]]);
        PrecedesIsAnOrder(recs[id], recs[s[0]], recs[s[j]]);
      }
    } else {
      var head, tail := s[0], s[1..];
      assert s == [head] + tail;
      assert forall x :: x in tail ==> x in s;
      forall i, j | 0 <= i < j < |tail|
        ensures tail[i] != tail[j] && !Precedes(recs[tail[j]], recs[tail[i]])
      {
        assert tail[i] == s[i + 1] && tail[j] == s[j + 1];
      }
      InsertKeepsOrder(recs, tail, id);
      PrependKeepsOrder(recs, head, tail, Insert(recs, tail, id), id);
    }
  }

  lemma PrecedesItself(a: RecordRow)
    ensures !Precedes(a, a)
  {
  }

  lemma PrependKeepsOrder(recs: Records, head: nat, tail: seq<nat>, rest: seq<nat>, id: nat)
    requires id in recs && head in recs && InOrder(recs, [head] + tail) && Distinct([head] + tail) && head != id
    requires InOrder(recs, rest) && Distinct(rest) && forall x :: x in rest <==> x in tail || x == id
    requires !Precedes(recs[id], recs[head])
    ensures InOrder(recs, [head] + rest) && Distinct([head] + rest)
  {
    hide Precedes;
    var s := [head] + tail;
    forall j | 0 <= j < |rest|
      ensures !Precedes(recs[rest[j]], recs[head]) && rest[j] != head
    {
      assert rest[j] in rest;
      if rest[j] in tail {
        var k :| 0 <= k < |tail| && tail[k] == rest[j];
        assert s[k + 1] == rest[j] && s[0] == head;
      }
    }
  }

  // --- file status as an aggregate ---------------------------------------------------------

  ghost function StatusesOf(recs: Records, fileId: nat): set<Status> {
    set id | id in recs && recs[id].fileId == fileId :: recs[id].status
  }

  /** The branch chain of `recompute_file_status`. */
  function Aggregate(statuses: set<Status>): Status {
    if statuses <= {Sent} then Sent
    else if statuses == {Pending} then Pending
    else if Failed in statuses then Failed
    else if statuses <= {Rejected, Sent} then Rejected
    else Partial
  }

  /** Every record of the file is finished: sent or rejected. */
  ghost predicate AllTerminal(recs: Records, fileId: nat) {
    forall id :: id in recs && recs[id].fileId == fileId ==> recs[id].status in {Sent, Rejected}
  }

  /** The aggregate is SENT or REJECTED exactly when no record is left to send or
      retry; a file without records is complete. */
  lemma AggregateIsTerminalIff(recs: Records, fileId: nat)
    ensures Aggregate(StatusesOf(recs, fileId)) in {Sent, Rejected} <==> AllTerminal(recs, fileId)
    ensures Aggregate(StatusesOf(recs, fileId)) == Sent <==>
            forall id :: id in recs && recs[id].fileId == fileId ==> recs[id].status == Sent
  {
    var st := StatusesOf(recs, fileId);
    forall id | id in recs && recs[id].fileId == fileId ensures recs[id].status in st {
    }
    if AllTerminal(recs, fileId) {
      assert st <= {Rejected, Sent};
    } else {
      var id :| id in recs && recs[id].fileId == fileId && recs[id].status !in {Sent, Rejected};
      assert recs[id].status in st;
    }
    if Aggregate(st) == Sent {
      assert st <= {Sent};
    }
  }

  ghost predicate SomeAre(recs: Records, fileId: nat, wanted: set<Status>) {
    exists id :: id in recs && recs[id].fileId == fileId && recs[id].status in wanted
  }

  /** What each status says about the records: any failed record shows, and a mixture of
      waiting and finished ones is partial. */
  lemma AggregateMeans(recs: Records, fileId: nat)
    ensures var s := Aggregate(StatusesOf(recs, fileId));
            && (s == Failed <==> SomeAre(recs, fileId, {Failed}))
            && (s == Rejected <==> AllTerminal(recs, fileId) && SomeAre(recs, fileId, {Rejected}))
            && (s == Pending <==> SomeAre(recs, fileId, {Pending}) && !SomeAre(recs, fileId, {Sent, Failed, Rejected}))
            && (s == Partial <==> SomeAre(recs, fileId, {Pending}) && SomeAre(recs, fileId, {Sent, Rejected})
                                  && !SomeAre(recs, fileId, {Failed}))
  {
    AggregateOf(StatusesOf(recs, fileId));
    AggregateIsTerminalIff(recs, fileId);
    StatusIsThere(recs, fileId, Failed);
    StatusIsThere(recs, fileId, Rejected);
    StatusIsThere(recs, fileId, Pending);
    StatusIsThere(recs, fileId, Sent);
    assert {Sent, Rejected} == {Sent} + {Rejected} && {Sent, Failed, Rejected} == {Sent, Rejected} + {Failed};
    hide SomeAre, StatusesOf, AllTerminal, Aggregate;
    SomeAreEither(recs, fileId, {Sent}, {Rejected});
    SomeAreEither(recs, fileId, {Sent, Rejected}, {Failed});
  }

  lemma StatusIsThere(recs: Records, fileId: nat, s: Status)
    ensures s in StatusesOf(recs, fileId) <==> SomeAre(recs, fileId, {s})
    ensures Partial !in StatusesOf(recs, fileId)
  {
  }

  lemma SomeAreEither(recs: Records, fileId: nat, a: set<Status>, b: set<Status>)
    ensures SomeAre(recs, fileId, a + b) <==> SomeAre(recs, fileId, a) || SomeAre(recs, fileId, b)
  {
  }

  lemma AggregateOf(st: set<Status>)
    requires Partial !in st
    ensures Aggregate(st) == Failed <==> Failed in st
    ensures Aggregate(st) == Rejected ==> Rejected in st && Failed !in st
    ensures Aggregate(st) in {Sent, Rejected} && Rejected in st ==> Aggregate(st) == Rejected
    ensures Aggregate(st) == Pending <==> Pending in st && Sent !in st && Failed !in st && Rejected !in st
    ensures Aggregate(st) == Partial <==> Pending in st && (Sent in st || Rejected in st) && Failed !in st
  {
    forall s | s in st ensures s in {Pending, Sent, Failed, Rejected} {
      assert s.Pending? || s.Partial? || s.Sent? || s.Failed? || s.Rejected?;
    }
    assert st <= {Rejected, Sent} && Rejected !in st ==> st <= {Sent};
  }

  function WithStatus(row: FileRow, s: Status): FileRow {
    row.(status := s, completed := row.completed || s in {Sent, Rejected})
  }

  // --- the connection ---------------------------------------------------------------------------

  class Db {
    var files: Files
    var records: Records
    var nextFileId: nat
    var nextRecordId: nat

    /** Foreign key, row ids that only grow, unique identities. */
    ghost predicate Valid()
      reads this
    {
      && (forall f :: f in files ==> f < nextFileId)
      && (forall id :: id in records ==> id < nextRecordId && records[id].fileId in files)
      && (forall f, g :: f in files && g in files && f != g ==> Identity(files[f]) != Identity(files[g]))
    }

    constructor ()
      ensures Valid() && files == map[] && records == map[]
    {
      files, records, nextFileId, nextRecordId := map[], map[], 0, 0;
    }

    /** `get_file_by_identity`. */
    method FindIdentity(filename: string, sha256: string) returns (found: bool)
      ensures found <==> (filename, sha256) in Identities(files)
    {
      var todo := files.Keys;
      while todo != {}
        invariant todo <= files.Keys
        invariant forall f :: f in files && f !in todo ==> Identity(files[f]) != (filename, sha256)
        decreases todo
      {
        var f :| f in todo;
        if Identity(files[f]) == (filename, sha256) {
          return true;
        }
        todo := todo - {f};
      }
      return false;
    }

    /** One pending record per line of the file. */
    method InsertRecords(fileId: nat, lines: seq<Line>)
      modifies this`records, this`nextRecordId
      ensures records == old(records) + NewRecords(fileId, old(nextRecordId), lines)
      ensures nextRecordId == old(nextRecordId) + |lines|
    {
      ghost var first := nextRecordId;
      for i := 0 to |lines|
        invariant nextRecordId == first + i
        invariant records == old(records) + NewRecords(fileId, first, lines[..i])
      {
        OneMoreRecord(old(records), fileId, first, lines, i);
        records := records[nextRecordId := NewRecord(fileId, i + 1, lines[i])];
        nextRecordId := nextRecordId + 1;
      }
      assert lines[..|lines|] == lines;
    }

    /** A new file with its records; refused when the identity exists. */
    method InsertFile(filename: string, sha256: string, lines: seq<Line>) returns (id: Option<nat>)
      requires Valid()
      modifies this
      ensures Valid()
      ensures id.None? <==> (filename, sha256) in old(Identities(files))
      ensures id.None? ==> files == old(files) && records == old(records)
      ensures id.Some? ==>
                && id.value !in old(files)
                && files == old(files)[id.value := FileRow(filename, sha256, |lines|, Pending, false, false)]
                && records == old(records) + NewRecords(id.value, old(nextRecordId), lines)
                && (forall r :: r in old(records) ==> r < old(nextRecordId))
    {
      var taken := FindIdentity(filename, sha256);
      if taken {
        return None;
      }
      var fileId := nextFileId;
      assert forall f :: f in files ==> Identity(files[f]) in Identities(files);
      files := files[fileId := FileRow(filename, sha256, |lines|, Pending, false, false)];
      nextFileId := nextFileId + 1;
      InsertRecords(fileId, lines);
      return Some(fileId);
    }

    method SendableRecords(retryCap: nat) returns (order: seq<nat>)
      ensures IsSendList(records, retryCap, order)
    {
      order := [];
      var todo := set id | id in records && Sendable(records[id], retryCap);
      ghost var all := todo;
      while todo != {}
        invariant todo <= all
        invariant Distinct(order) && InOrder(records, order)
        invariant forall id :: id in order <==> id in all - todo
        decreases todo
      {
        var id :| id in todo;
        InsertKeepsOrder(records, order, id);
        order := Insert(records, order, id);
        todo := todo - {id};
      }
    }

    method UpdateRecordResult(id: nat, r: UploadResult)
      modifies this`records
      ensures records == CommitResult(old(records), id, r)
      ensures old(Valid()) ==> Valid()
    {
      if id in records {
        records := records[id := WithResult(records[id], r)];
      }
    }

    /** Manual retry of one record, or of a file's records; returns how many changed. */
    method ResetRecords(ids: set<nat>) returns (affected: nat)
      modifies this`records
      ensures records == ResetAll(old(records), ids)
      ensures affected == |set id | id in old(records) && id in ids && old(records)[id].status in {Failed, Rejected}|
      ensures old(Valid()) ==> Valid()
    {
      affected := |set id | id in records && id in ids && records[id].status in {Failed, Rejected}|;
      records := map id | id in records :: if id in ids then ResetRow(records[id]) else records[id];
    }

    method RecomputeFileStatus(fileId: nat) returns (status: Status)
      modifies this`files
      ensures status == Aggregate(StatusesOf(records, fileId))
      ensures files == if fileId in old(files) then old(files)[fileId := WithStatus(old(files)[fileId], status)]
                       else old(files)
      ensures fileId in old(files) ==>
                && files[fileId].status == status
                && (files[fileId].completed <==> old(files)[fileId].completed || AllTerminal(records, fileId))
                && files[fileId] == old(files)[fileId].(status := status, completed := files[fileId].completed)
      ensures old(Valid()) ==> Valid()
    {
      var statuses := set id | id in records && records[id].fileId == fileId :: records[id].status;
      assert statuses == StatusesOf(records, fileId);
      status := Aggregate(statuses);
      AggregateIsTerminalIff(records, fileId);
      if fileId in files {
        files := files[fileId := WithStatus(files[fileId], status)];
      }
    }

    method MarkArchived(fileId: nat)
      modifies this`files
      ensures files == if fileId in old(files) then old(files)[fileId := old(files)[fileId].(archived := true)]
                       else old(files)
      ensures old(Valid()) ==> Valid()
    {
      if fileId in files {
        files := files[fileId := files[fileId].(archived := true)];
      }
    }
  }

  function Identity(f: FileRow): (string, string) { (f.filename, f.sha256) }

  ghost function Identities(files: Files): set<(string, string)> {
    set f | f in files :: Identity(files[f])
  }
}
