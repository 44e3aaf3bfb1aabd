/** The enricher and the uploader over one inbox: under how many identities the uploader can
    come to store the enriched bytes of one raw file. */
module SecondIdentity {
  import opened Basics
  import opened FileStep
  import opened Store
  import P = FilePhases

  /** The enricher moves, dies or loses files to the archiver; or the uploader ingests some
      of the visible files. */
  datatype Move = Enricher(a: Action) | Ingest(paths: seq<P.Found>)

  /** `known`: the identities in the table `files`. */
  datatype Both = Both(w: World, known: set<(string, string)>)

  /** The scan sees visible files, and a path carries what the file holds. */
  ghost predicate Scanned(inbox: Folder, paths: seq<P.Found>) {
    forall p :: p in paths ==> p.name in inbox && inbox[p.name] == p.sha256 && !Hidden(p.name)
  }

  /** What one move does; ingest as `FilePhases.IngestNewFiles` promises it. */
  ghost function Moved(b: Both, job: Job, m: Move): Both {
    match m
    case Enricher(a) => b.(w := Act(b.w, job, a))
    case Ingest(paths) => b.(known := b.known + P.FoundIdentities(paths))
  }

  ghost function MovedAll(b: Both, job: Job, moves: seq<Move>): Both {
    if moves == [] then b else Moved(MovedAll(b, job, moves[..|moves| - 1]), job, moves[|moves| - 1])
  }

  ghost predicate CanMove(b: Both, job: Job, moves: seq<Move>) {
    moves == []
    || (var before, m := moves[..|moves| - 1], moves[|moves| - 1];
        CanMove(b, job, before) && (m.Ingest? ==> Scanned(MovedAll(b, job, before).w.st.inbox, m.paths)))
  }

  /** The names under which `content` is stored. */
  ghost function NamesOf(known: set<(string, string)>, content: string): set<string> {
    set id | id in known && id.1 == content :: id.0
  }

  /** The enriched bytes are only where the enricher showed them. */
  ghost predicate OnlyShown(b: Both, job: Job)
    requires job.enriched.Some?
  {
    && (forall n :: n in b.w.st.inbox && !Hidden(n) && b.w.st.inbox[n] == job.enriched.value ==> n in b.w.emitted)
    && NamesOf(b.known, job.enriched.value) <= b.w.emitted
  }

  lemma MoveKeepsShown(b: Both, job: Job, m: Move)
    requires job.Valid() && job.enriched.Some? && OnlyShown(b, job)
    requires m.Ingest? ==> Scanned(b.w.st.inbox, m.paths)
    ensures OnlyShown(Moved(b, job, m), job)
  {
  }

  lemma OneMoreMove(b: Both, job: Job, moves: seq<Move>, m: Move)
    ensures MovedAll(b, job, moves + [m]) == Moved(MovedAll(b, job, moves), job, m)
    ensures CanMove(b, job, moves + [m]) <==>
            CanMove(b, job, moves) && (m.Ingest? ==> Scanned(MovedAll(b, job, moves).w.st.inbox, m.paths))
  {
    assert (moves + [m])[..|moves|] == moves;
  }

  function Actions(moves: seq<Move>): seq<Action> {
    if moves == [] then []
    else
      var m := moves[|moves| - 1];
      Actions(moves[..|moves| - 1]) + (if m.Enricher? then [m.a] else [])
  }

  /** Ingesting does not disturb the enricher. */
  lemma {:induction false} SameWorld(b: Both, job: Job, moves: seq<Move>)
    ensures MovedAll(b, job, moves).w == Play(b.w, job, Actions(moves))
  {
    if moves != [] {
      hide Act;
      var m := moves[|moves| - 1];
      SameWorld(b, job, moves[..|moves| - 1]);
      if m.Enricher? {
        PlayOneMore(b.w, job, Actions(moves[..|moves| - 1]), m.a);
      } else {
        assert Actions(moves) == Actions(moves[..|moves| - 1]);
      }
    }
  }

  lemma {:induction false} ShownAlways(b: Both, job: Job, moves: seq<Move>)
    requires job.Valid() && job.enriched.Some? && OnlyShown(b, job) && CanMove(b, job, moves)
    ensures OnlyShown(MovedAll(b, job, moves), job)
  {
    if moves != [] {
      hide Moved, OnlyShown, Scanned;
      var n := |moves| - 1;
      ShownAlways(b, job, moves[..n]);
      MoveKeepsShown(MovedAll(b, job, moves[..n]), job, moves[n]);
    }
  }

  /** The first attempt at a file whose enriched bytes are nowhere yet. */
  ghost predicate Fresh(st: State, known: set<(string, string)>, job: Job) {
    && job.Valid() && job.enriched.Some? && Due(st, job)
    && (forall n :: n in st.inbox ==> st.inbox[n] != job.enriched.value)
    && (forall id :: id in known ==> id.1 != job.enriched.value)
  }

  /** Three operations of the enricher show the bytes, then the uploader ingests them. */
  lemma ShownIsIngested(b: Both, job: Job, before: seq<Move>) returns (moves: seq<Move>)
    requires job.Valid() && job.enriched.Some? && CanMove(b, job, before)
    requires var w := MovedAll(b, job, before).w; w.running.None? && Due(w.st, job)
    ensures CanMove(b, job, moves)
    ensures var b1, b2 := MovedAll(b, job, before), MovedAll(b, job, moves);
            var t := Target(b1.w.st.inbox, job, job.enriched.value);
            && b2.known == b1.known + {(t, job.enriched.value)}
            && b2.w == Play(b1.w, job, [Operate, Operate, Operate])
  {
    var b1 := MovedAll(b, job, before);
    var t := Target(b1.w.st.inbox, job, job.enriched.value);
    var paths := [P.Found(t, job.enriched.value, [])];
    FirstThree(b1.w, job);
    PlayThree(b1.w, job);
    assert !Hidden(t) by { NotHidden(job); }
    hide Act;
    moves := before;
    for i := 0 to 3
      invariant CanMove(b, job, moves)
      invariant MovedAll(b, job, moves).known == b1.known
      invariant i == 0 ==> MovedAll(b, job, moves).w == b1.w
      invariant i == 1 ==> MovedAll(b, job, moves).w == Act(b1.w, job, Operate)
      invariant i == 2 ==> MovedAll(b, job, moves).w == Act(Act(b1.w, job, Operate), job, Operate)
      invariant i == 3 ==> MovedAll(b, job, moves).w == Play(b1.w, job, [Operate, Operate, Operate])
    {
      OneMoreMove(b, job, moves, Enricher(Operate));
      moves := moves + [Enricher(Operate)];
    }
    OneMoreMove(b, job, moves, Ingest(paths));
    assert P.FoundIdentities(paths) == {(t, job.enriched.value)} by { assert paths[0] in paths; }
    moves := moves + [Ingest(paths)];
  }

  lemma NotHidden(job: Job)
    requires job.Valid()
    ensures !Hidden(job.name) && !Hidden(job.Tagged())
  {
  }

  /** With the name held by a different file, a death in between gives the same bytes two
      identities. */
  lemma TwoIdentities(st: State, known: set<(string, string)>, job: Job) returns (moves: seq<Move>)
    requires Fresh(st, known, job) && NameHeld(st.inbox, job)
    ensures CanMove(Both(World(None, st, {}), known), job, moves)
    ensures var bytes := job.enriched.value;
            MovedAll(Both(World(None, st, {}), known), job, moves).known
            == known + {(job.Tagged(), bytes), (job.name, bytes)}
  {
    var b := Both(World(None, st, {}), known);
    FirstThree(b.w, job);
    var shown := ShownIsIngested(b, job, []);
    NotHidden(job);
    var take := TakeAway({job.name, job.Tagged()});
    OneMoreMove(b, job, shown, Enricher(Die));
    OneMoreMove(b, job, shown + [Enricher(Die)], Enricher(take));
    var rest := shown + [Enricher(Die)] + [Enricher(take)];
    assert job.name !in MovedAll(b, job, rest).w.st.inbox;
    hide MovedAll, CanMove, Play;
    moves := ShownIsIngested(b, job, rest);
  }

  /** Exactly when the uploader can come to store the enriched bytes of one raw file under
      two names, whatever the order of operations, deaths, scans and archiving: if and only
      if a different file held the name when the first attempt began. */
  lemma StoredOnceIff(st: State, known: set<(string, string)>, job: Job)
    requires Fresh(st, known, job)
    ensures var b := Both(World(None, st, {}), known);
            (forall moves :: CanMove(b, job, moves) ==>
               |NamesOf(MovedAll(b, job, moves).known, job.enriched.value)| <= 1)
            <==> !NameHeld(st.inbox, job)
  {
    var b, bytes := Both(World(None, st, {}), known), job.enriched.value;
    if NameHeld(st.inbox, job) {
      var moves := TwoIdentities(st, known, job);
      assert NamesOf(known, bytes) == {};
      TaggedIsLonger(job);
      TwoNames(known, job.name, job.Tagged(), bytes);
      assert CanMove(b, job, moves);
    } else {
      forall moves | CanMove(b, job, moves) ensures |NamesOf(MovedAll(b, job, moves).known, bytes)| <= 1 {
        ShownAlways(b, job, moves);
        SameWorld(b, job, moves);
        OnlyOwnName(b.w, job, Actions(moves));
        var names := NamesOf(MovedAll(b, job, moves).known, bytes);
        assert names <= {job.name};
        assert names == {} || names == {job.name};
      }
    }
  }

  lemma TwoNames(known: set<(string, string)>, a: string, b: string, content: string)
    requires NamesOf(known, content) == {} && a != b
    ensures |NamesOf(known + {(b, content), (a, content)}, content)| == 2
  {
    var known' := known + {(b, content), (a, content)};
    forall id | id in known ensures id.1 != content {
      assert id.1 == content ==> id.0 in NamesOf(known, content);
    }
    assert (a, content) in known' && (b, content) in known';
    assert NamesOf(known', content) == {a, b};
  }

  /** In the table itself: identities are unique, so names of one content are its rows. */
  lemma OneRowIff(files: Files, content: string)
    requires forall f, g :: f in files && g in files && f != g ==> Identity(files[f]) != Identity(files[g])
    ensures |NamesOf(Identities(files), content)| <= 1 <==>
            forall f, g :: f in files && g in files && files[f].sha256 == files[g].sha256 == content ==> f == g
  {
    var names := NamesOf(Identities(files), content);
    forall f | f in files && files[f].sha256 == content ensures files[f].filename in names {
      assert Identity(files[f]) in Identities(files);
    }
    if |names| <= 1 {
      forall f, g | f in files && g in files && files[f].sha256 == files[g].sha256 == content ensures f == g {
        SameName(names, files[f].filename, files[g].filename);
      }
    } else {
      var a :| a in names;
      assert names != {a};
      var c :| c in names && c != a;
      var f :| f in files && Identity(files[f]) == (a, content);
      var g :| g in files && Identity(files[g]) == (c, content);
      assert f != g;
    }
  }

  lemma SameName(names: set<string>, a: string, b: string)
    requires |names| <= 1 && a in names && b in names
    ensures a == b
  {
    assert |names - {a}| == 0;
  }
}
