/** The enricher's two halves put together: what a parsed line is enriched to is what the
    guards say of the fields read out of it. How values other than text are shown, and how an
    enriched line is written, are parameters. */
module EnrichFile {
  import opened Basics
  import opened Json
  import opened Lines
  import opened Documents
  import E = EnrichLine

  /** What is around the guards: the cabinet's answers, `str(x or "")` of a value that is not
      text, the enriched line as written, and a list of client ids as printed. */
  datatype Context = Context(
    rows: map<string, E.Row>, peers: map<int, seq<Peer>>,
    shown: Value -> string, written: (Members, E.Result) -> string, listed: set<int> -> string)
  {
    predicate Valid() { E.ValidRows(rows, peers) }
  }

  /** The message of a reason; what it quotes comes from the line. */
  function Say(x: Context, reason: E.Reason): string {
    match reason
    case NoInn => "line has no inn"
    case NoDeals => "line has no deals"
    case NoReference => "deal has no dlref"
    case UnknownReference(dlref) => "dlref " + dlref + " not found in cabinet DB"
    case DifferentClients(userIds) => "deals belong to different clients: user_ids=" + x.listed(userIds)
    case CabinetHasNoInn(inn) => "cabinet client has no inn (users.social_number is empty), file has " + inn
    case InnMismatch(inn) => "inn mismatch: file has " + inn + ", cabinet client has different inn"
    case NoDate => "application has no applied_at (vdate)"
    case BadDocument(kind) =>
      if kind.UnsupportedFormat? then "unsupported passport format (neither 2 letters + 6 digits nor 9 digits)"
      else "no passport number in the cabinet (both the application snapshot and users are empty)"
    case NoPhone => "no valid phone (contacts block is mandatory)"
    case MissingName => "line is missing lname/fname/bdate"
    case BirthdayContradicts(bdate, inn, expected) =>
      "bdate " + bdate + " contradicts the date encoded in inn " + inn + " (expected " + expected + ")"
  }

  /** A field as text: nothing for a missing key. */
  function Text(x: Context, v: Option<Value>): string {
    if v.None? || v.value.Null? then "" else if v.value.Str? then v.value.s else x.shown(v.value)
  }

  /** The application references of a list of deals; a deal that is no object has none. */
  function References(x: Context, deals: Items): seq<string> {
    match deals
    case NoItem => []
    case Item(deal, rest) =>
      [if deal.Obj? then Text(x, Lookup(deal.members, "dlref")) else ""] + References(x, rest)
  }

  function SubjectOf(x: Context, m: Members): E.Subject {
    var deals := Lookup(m, "deals");
    E.Subject(Text(x, Lookup(m, "inn")),
              if deals.Some? && deals.value.Arr? then References(x, deals.value.items) else [],
              Text(x, Lookup(m, "lname")), Text(x, Lookup(m, "fname")), Text(x, Lookup(m, "bdate")))
  }

  /** Text fields are taken as they are, a missing key and a null read as empty, and only a
      list makes deals. */
  lemma FieldsAreRead(x: Context, m: Members, s: string)
    ensures Lookup(m, "inn") == Some(Str(s)) ==> SubjectOf(x, m).inn == s
    ensures Lookup(m, "lname") == Some(Str(s)) ==> SubjectOf(x, m).lname == s
    ensures Lookup(m, "fname") == Some(Str(s)) ==> SubjectOf(x, m).fname == s
    ensures Lookup(m, "bdate") == Some(Str(s)) ==> SubjectOf(x, m).bdate == s
    ensures Lookup(m, "inn") in {None, Some(Null)} ==> SubjectOf(x, m).inn == ""
    ensures (forall items :: Lookup(m, "deals") != Some(Arr(items))) ==> SubjectOf(x, m).deals == []
  {
    hide Lookup;
  }

  /** Each deal gives one reference, in order: its `dlref`, or none if it is no object or has
      none. */
  lemma {:induction false} DealsAreRead(x: Context, m: Members, deals: seq<Value>, i: nat)
    requires Lookup(m, "deals") == Some(Arr(ItemsOf(deals))) && i < |deals|
    ensures |SubjectOf(x, m).deals| == |deals|
    ensures !deals[i].Obj? ==> SubjectOf(x, m).deals[i] == ""
    ensures deals[i].Obj? && Lookup(deals[i].members, "dlref") in {None, Some(Null)} ==> SubjectOf(x, m).deals[i] == ""
    ensures forall s :: deals[i].Obj? && Lookup(deals[i].members, "dlref") == Some(Str(s)) ==>
                          SubjectOf(x, m).deals[i] == s
  {
    hide Lookup;
    ReferenceAt(x, deals, i);
  }

  function ItemsOf(values: seq<Value>): Items {
    if values == [] then NoItem else Item(values[0], ItemsOf(values[1..]))
  }

  lemma {:induction false} ReferenceAt(x: Context, deals: seq<Value>, i: nat)
    requires i < |deals|
    ensures |References(x, ItemsOf(deals))| == |deals|
    ensures References(x, ItemsOf(deals))[i]
            == if deals[i].Obj? then Text(x, Lookup(deals[i].members, "dlref")) else ""
  {
    hide Lookup, Text;
    if |deals| > 1 {
      ReferenceAt(x, deals[1..], if i > 0 then i - 1 else 0);
    } else {
      assert deals[1..] == [] && References(x, NoItem) == [];
    }
  }

  /** `enrich_line` on a parsed object. */
  ghost function EnrichMembers(x: Context, m: Members): Verdict
    requires x.Valid()
  {
    var r := E.Judged(SubjectOf(x, m), x.rows, x.peers);
    if r.Enriched? then Enriched(x.written(m, r)) else Refused(Say(x, r.reason))
  }

  ghost function Enricher(x: Context): Members -> Verdict
    requires x.Valid()
  {
    m => EnrichMembers(x, m)
  }

  /** The guards refuse an object without a tax id, for that reason. */
  lemma NoInnIsRefused(x: Context, m: Members)
    requires x.Valid() && Lookup(m, "inn").None?
    ensures EnrichMembers(x, m) == Refused(Say(x, E.NoInn))
  {
    assert SubjectOf(x, m).inn == "" && Strip("") == "";
  }

  lemma EnricherNeedsInn(x: Context)
    requires x.Valid()
    ensures NeedsInn(Enricher(x))
  {
    forall m | Lookup(m, "inn").None? ensures Enricher(x)(m).Refused? {
      NoInnIsRefused(x, m);
    }
  }

  /** A line that failed twice is refused by the enricher itself, whatever the cabinet holds
      by then. */
  lemma SecondFailureStays(raw: string, rounds: seq<(nat, string)>, x: Context)
    requires x.Valid() && |rounds| >= 2
    ensures Fate(AfterRounds(raw, rounds), Enricher(x)).Refused?
  {
    EnricherNeedsInn(x);
    SecondFailureIsFinal(raw, rounds, Enricher(x));
  }

  /** And one that failed once is judged again as what it was: the same object, the same
      guards, the cabinet of the day. */
  lemma FirstFailureIsJudgedAgain(raw: string, lineNo: nat, reason: string, m: Members, x: Context)
    requires x.Valid() && Loads(raw) == Some(Obj(m))
    ensures Fate(AfterRounds(raw, [(lineNo, reason)]), Enricher(x)) == EnrichMembers(x, m)
    ensures Fate(AfterRounds(raw, [(lineNo, reason)]), Enricher(x)).Enriched?
            <==> E.Safe(SubjectOf(x, m), x.rows, x.peers)
  {
    var rounds := [(lineNo, reason)];
    OneLevelIsRemoved(raw, rounds);
    assert rounds[..0] == [];
    E.JudgedRightly(SubjectOf(x, m), x.rows, x.peers);
  }

  lemma {:induction false} FoundIsKey(m: Members, key: string)
    ensures Lookup(m, key).Some? ==> key in Keys(m)
  {
    if m.Member? {
      LookupStep(m.key, m.value, m.rest, key);
      FoundIsKey(m.rest, key);
    }
  }

  /** An object with a tax id is no quarantine record. */
  lemma InnMeansNoRecord(m: Members)
    requires Lookup(m, "inn").Some?
    ensures !IsRecord(Obj(m))
  {
    FoundIsKey(m, "inn");
    assert "inn" !in QUARANTINE_KEYS by { assert |"inn"| == 3 && |"line_no"| == 7 && |"reason"| == 6 && |"line"| == 4; }
  }

  /** A line that is no quarantine record is judged as it stands. */
  lemma RawIsJudged(raw: string, m: Members, x: Context)
    requires x.Valid() && Loads(raw) == Some(Obj(m)) && !IsRecord(Obj(m))
    ensures Fate(raw, Enricher(x)) == EnrichMembers(x, m)
  {
    hide Loads, IsRecord, EnrichMembers;
  }

  /** Re-dropping works once: after its failed rounds a line is enriched exactly if there was
      at most one and the guards pass it by now. */
  lemma RedropWorksIff(raw: string, rounds: seq<(nat, string)>, m: Members, x: Context)
    requires x.Valid() && Loads(raw) == Some(Obj(m)) && !IsRecord(Obj(m))
    ensures Fate(AfterRounds(raw, rounds), Enricher(x)).Enriched?
            <==> |rounds| <= 1 && E.Safe(SubjectOf(x, m), x.rows, x.peers)
  {
    hide Fate, Enricher, AfterRounds, E.Safe, IsRecord, Loads;
    if |rounds| == 0 {
      RawIsJudged(raw, m, x);
      NoRounds(raw);
      E.JudgedRightly(SubjectOf(x, m), x.rows, x.peers);
      assert rounds == [];
    } else if |rounds| == 1 {
      FirstFailureIsJudgedAgain(raw, rounds[0].0, rounds[0].1, m, x);
      assert rounds == [(rounds[0].0, rounds[0].1)];
    } else {
      SecondFailureStays(raw, rounds, x);
    }
  }

  lemma NoRounds(raw: string)
    ensures AfterRounds(raw, []) == raw
  {
  }
}
