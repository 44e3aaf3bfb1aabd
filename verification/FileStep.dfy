/** The enricher's file step: write the enriched file, write the quarantine, move the raw
    file away, record that it is done. Each file operation is atomic; the process may die
    after any of them and start over, knowing nothing but what is on disk. The enriched
    and quarantined bytes are a function of the raw file (fetch results unchanged), so a
    job carries them. */
module FileStep {
  import opened Basics

  /** One raw file: its name, the digest prefix used on collisions, its bytes, and what
      enriching it yields. */
  datatype Job = Job(name: string, tag: string, raw: string, enriched: Option<string>, quarantined: Option<string>) {
    /** Visible names; the scan never picks up hidden files. */
    predicate Valid() {
      name != "" && name[0] != '.' && tag != "" && tag[0] != '.'
    }

    function Tagged(): string { tag + "_" + name }
  }

  datatype State = State(raw: Folder, inbox: Folder, quarantine: Folder, processed: Folder, done: set<(string, string)>)

  predicate Hidden(name: string) { name != "" && name[0] == '.' }

  function Tmp(name: string): (t: string)
    ensures Hidden(t)
  {
    "." + name + ".tmp"
  }

  /** The name to write `data` under: a different file already there is preserved. */
  function Target(folder: Folder, job: Job, data: string): string {
    if job.name in folder && folder[job.name] != data then job.Tagged() else job.name
  }

  /** The very bytes are already there: an earlier attempt got this far. */
  predicate Reused(folder: Folder, job: Job, data: string) {
    var t := Target(folder, job, data);
    t in folder && folder[t] == data
  }

  /** `rename(tmp -> target)`. */
  function Renamed(folder: Folder, target: string, data: string): Folder {
    (folder - {Tmp(target)})[target := data]
  }

  function ProcessedName(st: State, job: Job): string {
    if job.name in st.processed then job.Tagged() else job.name
  }

  // --- one operation at a time ---------------------------------------------------------

  datatype Pc =
    AtEnriched | HasEnrichedTmp(target: string) | AtQuarantine | HasQuarantineTmp(target: string)
    | AtRaw | AtCommit | Finished

  datatype Running = Running(pc: Pc, st: State)

  function Advance(r: Running, job: Job): Running {
    var st := r.st;
    match r.pc
    case AtEnriched =>
      if job.enriched.None? || Reused(st.inbox, job, job.enriched.value) then r.(pc := AtQuarantine)
      else
        var t := Target(st.inbox, job, job.enriched.value);
        Running(HasEnrichedTmp(t), st.(inbox := st.inbox[Tmp(t) := job.enriched.value]))
    case HasEnrichedTmp(t) =>
      if job.enriched.None? then r
      else Running(AtQuarantine, st.(inbox := Renamed(st.inbox, t, job.enriched.value)))
    case AtQuarantine =>
      if job.quarantined.None? || Reused(st.quarantine, job, job.quarantined.value) then r.(pc := AtRaw)
      else
        var t := Target(st.quarantine, job, job.quarantined.value);
        Running(HasQuarantineTmp(t), st.(quarantine := st.quarantine[Tmp(t) := job.quarantined.value]))
    case HasQuarantineTmp(t) =>
      if job.quarantined.None? then r
      else Running(AtRaw, st.(quarantine := Renamed(st.quarantine, t, job.quarantined.value)))
    case AtRaw =>
      Running(AtCommit, st.(raw := st.raw - {job.name}, processed := st.processed[ProcessedName(st, job) := job.raw]))
    case AtCommit => Running(Finished, st.(done := st.done + {(job.name, job.raw)}))
    case Finished => r
  }

  function Steps(r: Running, job: Job, k: nat): Running {
    if k == 0 then r else Advance(Steps(r, job, k - 1), job)
  }

  /** The scan sees the raw file and the done table does not know it. */
  predicate Due(st: State, job: Job) {
    job.name in st.raw && st.raw[job.name] == job.raw && (job.name, job.raw) !in st.done
  }

  /** An attempt that dies after `k` operations; six are enough to finish. */
  function Attempt(st: State, job: Job, k: nat): State {
    if Due(st, job) then Steps(Running(AtEnriched, st), job, k).st else st
  }

  const ALL_STEPS := 6

  /** Attempts that die after the given numbers of operations, one after the other. */
  function Attempts(st: State, job: Job, deaths: seq<nat>): State {
    if deaths == [] then st
    else Attempt(Attempts(st, job, deaths[..|deaths| - 1]), job, deaths[|deaths| - 1])
  }

  // --- the program ---------------------------------------------------------------------

  class Enricher {
    var st: State

    /** Write or reuse the enriched file; dying is possible after every operation. */
    method WriteEnriched(job: Job) returns (alive: bool, ghost k: nat)
      requires job.Valid()
      modifies this
      ensures var r := Steps(Running(AtEnriched, old(st)), job, k);
              st == r.st && (alive ==> r.pc == AtQuarantine)
    {
      ghost var start := Running(AtEnriched, st);
      k := 0;
      if job.enriched.Some? {
        var data := job.enriched.value;
        var target := job.name;
        if target in st.inbox && st.inbox[target] != data {
          target := job.Tagged();
        }
        if !(target in st.inbox && st.inbox[target] == data) {
          st := st.(inbox := st.inbox[Tmp(target) := data]);
          k := 1;
          assert Steps(start, job, 1) == Advance(Steps(start, job, 0), job);
          var dies: bool := *;
          if dies { return false, k; }
          st := st.(inbox := Renamed(st.inbox, target, data));
          k := 2;
          assert Steps(start, job, 2) == Advance(Steps(start, job, 1), job);
          dies := *;
          return !dies, k;
        }
      }
      k := 1;
      assert Steps(start, job, 1) == Advance(Steps(start, job, 0), job);
      return true, k;
    }

    method WriteQuarantine(job: Job) returns (alive: bool, ghost k: nat)
      requires job.Valid()
      modifies this
      ensures var r := Steps(Running(AtQuarantine, old(st)), job, k);
              st == r.st && (alive ==> r.pc == AtRaw)
    {
      ghost var start := Running(AtQuarantine, st);
      k := 0;
      if job.quarantined.Some? {
        var data := job.quarantined.value;
        var target := job.name;
        if target in st.quarantine && st.quarantine[target] != data {
          target := if job.name in st.quarantine then job.Tagged() else job.name;
        }
        if !(target in st.quarantine && st.quarantine[target] == data) {
          st := st.(quarantine := st.quarantine[Tmp(target) := data]);
          k := 1;
          assert Steps(start, job, 1) == Advance(Steps(start, job, 0), job);
          var dies: bool := *;
          if dies { return false, k; }
          st := st.(quarantine := Renamed(st.quarantine, target, data));
          k := 2;
          assert Steps(start, job, 2) == Advance(Steps(start, job, 1), job);
          dies := *;
          return !dies, k;
        }
      }
      k := 1;
      assert Steps(start, job, 1) == Advance(Steps(start, job, 0), job);
      return true, k;
    }

    /** Move the raw file away, then record it. */
    method MarkDone(job: Job) returns (alive: bool, ghost k: nat)
      modifies this
      ensures var r := Steps(Running(AtRaw, old(st)), job, k);
              st == r.st && (alive ==> r.pc == Finished)
    {
      ghost var start := Running(AtRaw, st);
      st := st.(raw := st.raw - {job.name}, processed := st.processed[ProcessedName(st, job) := job.raw]);
      k := 1;
      assert Steps(start, job, 1) == Advance(Steps(start, job, 0), job);
      var dies: bool := *;
      if dies { return false, k; }
      st := st.(done := st.done + {(job.name, job.raw)});
      k := 2;
      assert Steps(start, job, 2) == Advance(Steps(start, job, 1), job);
      return true, k;
    }

    /** One attempt at a file: whatever the point of death, the disk is as after that many
        operations; an attempt that reports success went all the way. */
    method ProcessFile(job: Job) returns (finished: bool, ghost k: nat)
      requires job.Valid()
      modifies this
      ensures st == Attempt(old(st), job, k)
      ensures finished && old(Due(st, job)) ==> st == Full(old(st), job)
    {
      hide Steps, Full, Advance, Job.Valid;
      k := 0;
      if !Due(st, job) {
        return true, k;
      }
      ghost var start := Running(AtEnriched, st);
      var alive;
      ghost var k1, k2, k3;
      alive, k1 := WriteEnriched(job);
      if !alive { return false, k1; }
      alive, k2 := WriteQuarantine(job);
      StepsAdd(start, job, k1, k2);
      if !alive { return false, k1 + k2; }
      alive, k3 := MarkDone(job);
      StepsAdd(start, job, k1 + k2, k3);
      k := k1 + k2 + k3;
      if !alive { return false, k; }
      FinishedIsFull(old(st), job, k);
      return true, k;
    }
  }

  lemma {:induction false} StepsAdd(r: Running, job: Job, a: nat, b: nat)
    ensures Steps(Steps(r, job, a), job, b) == Steps(r, job, a + b)
  {
    hide Advance;
    if b > 0 {
      StepsAdd(r, job, a, b - 1);
      assert Steps(r, job, a + b) == Advance(Steps(r, job, a + (b - 1)), job);
    }
  }

  // --- what an uninterrupted attempt does --------------------------------------------------

  /** The folder with `data` in it, under its target. */
  function Put(folder: Folder, job: Job, data: Option<string>): Folder {
    if data.None? || Reused(folder, job, data.value) then folder
    else Renamed(folder, Target(folder, job, data.value), data.value)
  }

  function Full(st: State, job: Job): State {
    State(st.raw - {job.name}, Put(st.inbox, job, job.enriched), Put(st.quarantine, job, job.quarantined),
          st.processed[ProcessedName(st, job) := job.raw], st.done + {(job.name, job.raw)})
  }

  lemma TmpIsOther(job: Job, t: string)
    requires job.Valid()
    ensures Tmp(t) != job.name && Tmp(t) != job.Tagged()
  {
    assert job.Tagged()[0] == job.tag[0];
  }

  /** A leftover temporary file changes nothing about the next attempt. */
  lemma PutAfterTmp(folder: Folder, job: Job, data: string)
    requires job.Valid()
    ensures var t := Target(folder, job, data);
            var folder' := folder[Tmp(t) := data];
            && Target(folder', job, data) == t
            && (Reused(folder', job, data) <==> Reused(folder, job, data))
            && (!Reused(folder, job, data) ==> Put(folder', job, Some(data)) == Put(folder, job, Some(data)))
            && Renamed(folder', t, data) == Renamed(folder, t, data)
  {
    TmpIsOther(job, Target(folder, job, data));
  }

  /** Putting the same bytes twice is putting them once. */
  lemma PutTwice(folder: Folder, job: Job, data: Option<string>)
    requires job.Valid()
    ensures Put(Put(folder, job, data), job, data) == Put(folder, job, data)
  {
    if data.Some? {
      TmpIsOther(job, Target(folder, job, data.value));
    }
  }

  /** The state of an attempt at each point, against where it started. */
  predicate OnTheWay(st: State, job: Job, r: Running) {
    && r.st.raw == (if r.pc in {AtCommit, Finished} then st.raw - {job.name} else st.raw)
    && r.st.processed == (if r.pc in {AtCommit, Finished} then st.processed[ProcessedName(st, job) := job.raw]
                          else st.processed)
    && r.st.done == (if r.pc == Finished then st.done + {(job.name, job.raw)} else st.done)
    && (match r.pc
        case AtEnriched => r.st == st
        case HasEnrichedTmp(t) =>
          && job.enriched.Some? && !Reused(st.inbox, job, job.enriched.value)
          && t == Target(st.inbox, job, job.enriched.value)
          && r.st.inbox == st.inbox[Tmp(t) := job.enriched.value]
          && r.st.quarantine == st.quarantine
        case AtQuarantine =>
          r.st.inbox == Put(st.inbox, job, job.enriched) && r.st.quarantine == st.quarantine
        case HasQuarantineTmp(t) =>
          && r.st.inbox == Put(st.inbox, job, job.enriched)
          && job.quarantined.Some? && !Reused(st.quarantine, job, job.quarantined.value)
          && t == Target(st.quarantine, job, job.quarantined.value)
          && r.st.quarantine == st.quarantine[Tmp(t) := job.quarantined.value]
        case _ =>
          r.st.inbox == Put(st.inbox, job, job.enriched) && r.st.quarantine == Put(st.quarantine, job, job.quarantined))
  }

  lemma AdvanceStaysOnTheWay(st: State, job: Job, r: Running)
    requires job.Valid() && OnTheWay(st, job, r)
    ensures OnTheWay(st, job, Advance(r, job))
  {
    match r.pc
    case HasEnrichedTmp(t) => PutAfterTmp(st.inbox, job, job.enriched.value);
    case HasQuarantineTmp(t) => PutAfterTmp(st.quarantine, job, job.quarantined.value);
    case _ =>
  }

  lemma {:induction false} StepsStayOnTheWay(st: State, job: Job, k: nat)
    requires job.Valid()
    ensures OnTheWay(st, job, Steps(Running(AtEnriched, st), job, k))
  {
    if k > 0 {
      StepsStayOnTheWay(st, job, k - 1);
      AdvanceStaysOnTheWay(st, job, Steps(Running(AtEnriched, st), job, k - 1));
    }
  }

  lemma FinishedIsFull(st: State, job: Job, k: nat)
    requires job.Valid() && Steps(Running(AtEnriched, st), job, k).pc == Finished
    ensures Steps(Running(AtEnriched, st), job, k).st == Full(st, job)
  {
    StepsStayOnTheWay(st, job, k);
  }

  function Rank(pc: Pc): nat {
    match pc
    case AtEnriched => 0
    case HasEnrichedTmp(_) => 1
    case AtQuarantine => 2
    case HasQuarantineTmp(_) => 3
    case AtRaw => 4
    case AtCommit => 5
    case Finished => 6
  }

  lemma {:induction false} StepsProgress(st: State, job: Job, k: nat)
    requires job.Valid()
    ensures Rank(Steps(Running(AtEnriched, st), job, k).pc) >= if k < ALL_STEPS then k else ALL_STEPS
  {
    if k > 0 {
      StepsProgress(st, job, k - 1);
      StepsStayOnTheWay(st, job, k - 1);
    }
  }

  /** Six operations are enough: an attempt left alone does everything. */
  lemma FullAttempt(st: State, job: Job)
    requires job.Valid() && Due(st, job)
    ensures Attempt(st, job, ALL_STEPS) == Full(st, job)
  {
    StepsProgress(st, job, ALL_STEPS);
    FinishedIsFull(st, job, ALL_STEPS);
  }

  // --- what an attempt does to what was there ---------------------------------------------------

  /** In the processed folder nothing disappears, the raw file is there afterwards, and an
      older file is overwritten exactly when the name and its prefixed variant are both taken,
      the latter by other bytes. */
  lemma ProcessedOverwritesIff(st: State, job: Job)
    requires job.Valid()
    ensures var after, tagged := Full(st, job).processed, job.tag + "_" + job.name;
            && (forall n :: n in st.processed ==> n in after)
            && (exists n :: n in {job.name, tagged} && n in after && after[n] == job.raw)
            && ((exists n :: n in st.processed && after[n] != st.processed[n]) <==>
                job.name in st.processed && tagged in st.processed && st.processed[tagged] != job.raw)
  {
    TaggedIsLonger(job);
    var after := Full(st, job).processed;
    if job.name in st.processed && job.Tagged() in st.processed && st.processed[job.Tagged()] != job.raw {
      assert after[job.Tagged()] != st.processed[job.Tagged()];
    }
    assert ProcessedName(st, job) in {job.name, job.Tagged()} && after[ProcessedName(st, job)] == job.raw;
  }

  lemma TaggedIsLonger(job: Job)
    requires job.Valid()
    ensures job.Tagged() != job.name
  {
    assert |job.Tagged()| > |job.name|;
  }

  /** In the inbox and in the quarantine folder: the bytes are there afterwards, under one of
      the two names, no visible file disappears, and another one is overwritten exactly when
      both names are taken by other bytes. */
  lemma PutOverwritesIff(folder: Folder, job: Job, data: string)
    requires job.Valid()
    ensures var after, tagged := Put(folder, job, Some(data)), job.tag + "_" + job.name;
            && (forall n :: n in folder && !Hidden(n) ==> n in after)
            && (exists n :: n in {job.name, tagged} && n in after && after[n] == data)
            && ((exists n :: n in folder && !Hidden(n) && after[n] != folder[n]) <==>
                && job.name in folder && folder[job.name] != data
                && tagged in folder && folder[tagged] != data)
  {
    TaggedIsLonger(job);
    TmpIsOther(job, Target(folder, job, data));
    var after := Put(folder, job, Some(data));
    assert !Hidden(job.name) && !Hidden(job.Tagged());
    assert Target(folder, job, data) in {job.name, job.Tagged()} && after[Target(folder, job, data)] == data;
    if job.name in folder && folder[job.name] != data && job.Tagged() in folder && folder[job.Tagged()] != data {
      assert after[job.Tagged()] != folder[job.Tagged()];
    }
  }

  /** The raw file is processed exactly if it lies there with these bytes and the done table
      does not have it; then it is gone and recorded, and nothing is left to do. */
  lemma AttemptDecides(st: State, job: Job)
    requires job.Valid()
    ensures Attempt(st, job, ALL_STEPS)
            == if job.name in st.raw && st.raw[job.name] == job.raw && (job.name, job.raw) !in st.done
               then Full(st, job) else st
    ensures job.name !in Full(st, job).raw && (job.name, job.raw) in Full(st, job).done
    ensures forall k :: Attempt(Full(st, job), job, k) == Full(st, job)
  {
    if Due(st, job) {
      FullAttempt(st, job);
    }
    hide Put, ProcessedName;
  }

  // --- dying and starting over ------------------------------------------------------------------

  /** Same folders; the done table may lack the row of a run that died just before it. */
  predicate SameFolders(a: State, b: State) {
    a.raw == b.raw && a.inbox == b.inbox && a.quarantine == b.quarantine && a.processed == b.processed
  }

  /** Wherever an attempt dies, the file is still due and a full attempt gets where one
      would have gotten before, or it is no longer due and everything is there. */
  lemma OneDeath(st: State, job: Job, k: nat)
    requires job.Valid() && Due(st, job)
    ensures var died := Attempt(st, job, k);
            if Due(died, job) then Full(died, job) == Full(st, job)
            else SameFolders(died, Full(st, job)) && died.done <= Full(st, job).done
  {
    StepsStayOnTheWay(st, job, k);
    var r := Steps(Running(AtEnriched, st), job, k);
    PutTwice(st.inbox, job, job.enriched);
    PutTwice(st.quarantine, job, job.quarantined);
    match r.pc
    case HasEnrichedTmp(t) => PutAfterTmp(st.inbox, job, job.enriched.value);
    case HasQuarantineTmp(t) => PutAfterTmp(st.quarantine, job, job.quarantined.value);
    case _ =>
  }

  /** Any number of deaths at any points, then one attempt that is left alone: every folder
      ends up exactly as if nothing had ever gone wrong. */
  lemma {:induction false} CrashRestart(st: State, job: Job, deaths: seq<nat>)
    requires job.Valid() && Due(st, job)
    ensures var died := Attempts(st, job, deaths);
            && (if Due(died, job) then Full(died, job) == Full(st, job) else SameFolders(died, Full(st, job)))
            && SameFolders(Attempt(died, job, ALL_STEPS), Full(st, job))
  {
    hide Attempt, Full;
    if deaths == [] {
      FullAttempt(st, job);
    } else {
      var k := |deaths| - 1;
      CrashRestart(st, job, deaths[..k]);
      var before := Attempts(st, job, deaths[..k]);
      if Due(before, job) {
        OneDeath(before, job, deaths[k]);
      } else {
        NotDueDoesNothing(before, job, deaths[k]);
      }
      var died := Attempts(st, job, deaths);
      if Due(died, job) {
        FullAttempt(died, job);
      } else {
        NotDueDoesNothing(died, job, ALL_STEPS);
      }
    }
  }

  lemma NotDueDoesNothing(st: State, job: Job, k: nat)
    requires !Due(st, job)
    ensures Attempt(st, job, k) == st
  {
  }

  // --- with the uploader emptying the inbox in between --------------------------------------------

  /** What can happen: the enricher does its next operation (starting over if it died), the
      enricher dies, or the uploader moves visible files out of the inbox. */
  datatype Action = Operate | Die | TakeAway(names: set<string>)

  /** `emitted`: the names under which this file's enriched bytes became visible; with the
      bytes, each is an identity the uploader will ingest. */
  datatype World = World(running: Option<Pc>, st: State, emitted: set<string>)

  function Act(w: World, job: Job, a: Action): World {
    match a
    case Die => w.(running := None)
    case TakeAway(names) =>
      w.(st := w.st.(inbox := map n | n in w.st.inbox && (n !in names || Hidden(n)) :: w.st.inbox[n]))
    case Operate =>
      if w.running.None? then (if Due(w.st, job) then w.(running := Some(AtEnriched)) else w)
      else
        var r := Advance(Running(w.running.value, w.st), job);
        World(Some(r.pc), r.st, w.emitted + Shows(Running(w.running.value, w.st), job))
  }

  /** The name this operation makes the enriched bytes visible under, or finds them under. */
  function Shows(r: Running, job: Job): set<string> {
    match r.pc
    case HasEnrichedTmp(t) => {t}
    case AtEnriched =>
      if job.enriched.Some? && Reused(r.st.inbox, job, job.enriched.value)
      then {Target(r.st.inbox, job, job.enriched.value)} else {}
    case _ => {}
  }

  function Play(w: World, job: Job, actions: seq<Action>): World {
    if actions == [] then w else Act(Play(w, job, actions[..|actions| - 1]), job, actions[|actions| - 1])
  }

  /** A different, unconsumed file holds the name. */
  predicate NameHeld(inbox: Folder, job: Job) {
    job.enriched.Some? && job.name in inbox && inbox[job.name] != job.enriched.value
  }

  predicate OneName(w: World, job: Job) {
    && w.emitted <= {job.name}
    && !NameHeld(w.st.inbox, job)
    && (w.running.Some? && w.running.value.HasEnrichedTmp? ==> w.running.value.target == job.name)
  }

  lemma {:induction false} OnlyOwnName(w: World, job: Job, actions: seq<Action>)
    requires job.Valid() && job.enriched.Some? && OneName(w, job)
    ensures OneName(Play(w, job, actions), job)
  {
    if actions != [] {
      OnlyOwnName(w, job, actions[..|actions| - 1]);
      var w' := Play(w, job, actions[..|actions| - 1]);
      TmpIsOther(job, job.name);
      TmpIsOther(job, Target(w'.st.inbox, job, job.enriched.value));
    }
  }

  /** The gap: the first write used the prefixed name, the process died, the uploader took
      both files away, and the rerun wrote the same bytes under the plain name. */
  const GAP: seq<Action> := [Operate, Operate, Operate, Die]

  function GapRun(job: Job): seq<Action> {
    GAP + [TakeAway({job.name, job.Tagged()}), Operate, Operate, Operate]
  }

  lemma PlayOneMore(w: World, job: Job, actions: seq<Action>, a: Action)
    ensures Play(w, job, actions + [a]) == Act(Play(w, job, actions), job, a)
  {
    assert (actions + [a])[..|actions|] == actions;
  }

  lemma {:induction false} PlayAppends(w: World, job: Job, a: seq<Action>, b: seq<Action>)
    ensures Play(w, job, a + b) == Play(Play(w, job, a), job, b)
  {
    if b == [] {
      assert a + b == a;
    } else {
      var n := |b| - 1;
      PlayAppends(w, job, a, b[..n]);
      assert a + b == (a + b[..n]) + [b[n]];
      PlayOneMore(w, job, a + b[..n], b[n]);
    }
  }

  lemma PlayThree(w: World, job: Job)
    ensures Play(w, job, [Operate, Operate, Operate])
            == Act(Act(Act(w, job, Operate), job, Operate), job, Operate)
  {
    PlayOneMore(w, job, [], Operate);
    PlayOneMore(w, job, [Operate], Operate);
    PlayOneMore(w, job, [Operate, Operate], Operate);
    assert [] + [Operate] == [Operate];
    assert [Operate] + [Operate] == [Operate, Operate];
    assert [Operate, Operate] + [Operate] == [Operate, Operate, Operate];
  }

  /** Starting from rest, three operations show the enriched bytes under their target,
      leaving the raw file due and every other visible file in place. */
  lemma FirstThree(w: World, job: Job)
    requires job.Valid() && job.enriched.Some? && w.running.None? && Due(w.st, job)
    ensures var t := Target(w.st.inbox, job, job.enriched.value);
            var w' := Play(w, job, [Operate, Operate, Operate]);
            && w'.emitted == w.emitted + {t}
            && Due(w'.st, job)
            && t in w'.st.inbox && w'.st.inbox[t] == job.enriched.value
  {
    PlayThree(w, job);
    TmpIsOther(job, Target(w.st.inbox, job, job.enriched.value));
  }

  lemma GapHappens(st: State, job: Job)
    requires job.Valid() && job.enriched.Some? && Due(st, job) && NameHeld(st.inbox, job)
    ensures Play(World(None, st, {}), job, GapRun(job)).emitted == {job.name, job.Tagged()}
  {
    var w := World(None, st, {});
    var three := [Operate, Operate, Operate];
    FirstThree(w, job);
    var w1 := Play(w, job, three);
    PlayOneMore(w, job, three, Die);
    assert three + [Die] == GAP;
    var take := TakeAway({job.name, job.Tagged()});
    PlayOneMore(w, job, GAP, take);
    var w2 := Play(w, job, GAP + [take]);
    assert !Hidden(job.name) && !Hidden(job.Tagged());
    assert job.name !in w2.st.inbox;
    FirstThree(w2, job);
    PlayAppends(w, job, GAP + [take], three);
    assert GapRun(job) == (GAP + [take]) + three;
  }

  /** Exactly when the enriched bytes of one raw file can reach the uploader under two
      identities: if and only if the name was held by a different file when the first
      attempt began. */
  lemma SecondIdentityIff(st: State, job: Job)
    requires job.Valid() && job.enriched.Some? && Due(st, job)
    ensures (forall actions :: |Play(World(None, st, {}), job, actions).emitted| <= 1) <==> !NameHeld(st.inbox, job)
  {
    var w := World(None, st, {});
    if NameHeld(st.inbox, job) {
      GapHappens(st, job);
      TaggedIsLonger(job);
      assert |{job.name, job.Tagged()}| == 2;
      assert |Play(w, job, GapRun(job)).emitted| > 1;
    } else {
      forall actions ensures |Play(w, job, actions).emitted| <= 1 {
        OnlyOwnName(w, job, actions);
        var e := Play(w, job, actions).emitted;
        assert e == {} || e == {job.name};
      }
    }
  }

  /** Without deaths the file is shown once, wherever the uploader steps in. */
  ghost predicate NoDeath(actions: seq<Action>) {
    forall i :: 0 <= i < |actions| ==> actions[i] != Die
  }

  /** Before the bytes are out nothing is shown; afterwards only the one name. */
  predicate ShownOnce(w: World, job: Job) {
    match w.running
    case None => w.emitted == {} && Due(w.st, job)
    case Some(AtEnriched) => w.emitted == {}
    case Some(HasEnrichedTmp(t)) => w.emitted == {}
    case Some(_) => |w.emitted| <= 1
  }

  lemma ActShowsOnce(w: World, job: Job, a: Action)
    requires job.Valid() && job.enriched.Some? && ShownOnce(w, job) && a != Die
    ensures ShownOnce(Act(w, job, a), job)
  {
  }

  lemma {:induction false} NoDeathNoGap(st: State, job: Job, actions: seq<Action>)
    requires job.Valid() && job.enriched.Some? && Due(st, job) && NoDeath(actions)
    ensures ShownOnce(Play(World(None, st, {}), job, actions), job)
    ensures |Play(World(None, st, {}), job, actions).emitted| <= 1
  {
    if actions != [] {
      hide Act;
      var n := |actions| - 1;
      assert NoDeath(actions[..n]) by {
        forall i | 0 <= i < n ensures actions[..n][i] != Die { assert actions[i] != Die; }
      }
      NoDeathNoGap(st, job, actions[..n]);
      ActShowsOnce(Play(World(None, st, {}), job, actions[..n]), job, actions[n]);
    }
  }
}
