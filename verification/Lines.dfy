/** From a raw file's lines to its two outputs: each non-blank line is enriched or
    quarantined, under its true line number. A quarantine record carries the raw line, and
    dropping it back unwraps it again. What enriching a subject yields is a parameter. */
module Lines {
  import opened Basics
  import opened Json

  datatype Numbered = Numbered(lineNo: nat, raw: string)

  datatype Verdict = Enriched(subject: string) | Refused(reason: string)

  datatype QRecord = QRecord(lineNo: nat, reason: string, line: string)

  // --- the quarantine wrapper -------------------------------------------------------

  /** `dict[key]` after parsing: of equal keys the last one counts. */
  function Lookup(m: Members, key: string): Option<Value> {
    match m
    case NoMember => None
    case Member(k, v, rest) =>
      var later := Lookup(rest, key);
      if later.Some? then later else if k == key then Some(v) else None
  }

  function Keys(m: Members): set<string> {
    match m
    case NoMember => {}
    case Member(k, _, rest) => {k} + Keys(rest)
  }

  /** One more member behind the others. */
  function WithMember(m: Members, key: string, v: Value): Members {
    match m
    case NoMember => Member(key, v, NoMember)
    case Member(k, w, rest) => Member(k, w, WithMember(rest, key, v))
  }

  /** An object read member by member: a later member replaces an earlier one of its key, and
      exactly the keys named are there. */
  lemma {:induction false} LaterMemberCounts(m: Members, key: string, v: Value, k: string)
    ensures Lookup(NoMember, k) == None
    ensures Lookup(WithMember(m, key, v), k) == if k == key then Some(v) else Lookup(m, k)
    ensures k in Keys(m) <==> Lookup(m, k).Some?
  {
    if m.Member? {
      LaterMemberCounts(m.rest, key, v, k);
    }
  }

  const QUARANTINE_KEYS: set<string> := {"line_no", "reason", "line"}

  predicate IsRecord(v: Value) {
    v.Obj? && Keys(v.members) == QUARANTINE_KEYS && Lookup(v.members, "line").Some?
  }

  predicate Has(m: Members, key: string) { Lookup(m, key).Some? }

  /** A record is an object with just these three keys. */
  lemma IsRecordIff(v: Value)
    ensures IsRecord(v) <==> v.Obj? && forall k :: Has(v.members, k) <==> k in {"line_no", "reason", "line"}
  {
    if v.Obj? {
      forall k ensures k in Keys(v.members) <==> Has(v.members, k) {
        LaterMemberCounts(v.members, k, Null, k);
      }
      assert QUARANTINE_KEYS == {"line_no", "reason", "line"};
      if forall k :: Has(v.members, k) <==> k in {"line_no", "reason", "line"} {
        assert Has(v.members, "line");
        assert forall k :: k in Keys(v.members) <==> k in QUARANTINE_KEYS;
      }
    }
  }

  /** `unwrap_quarantine`: the line inside a record, parsed; None is a parse error. */
  function Unwrap(v: Value): Option<Value> {
    if IsRecord(v) then
      var inner := Lookup(v.members, "line").value;
      if inner.Str? then Loads(inner.s) else Some(inner)
    else Some(v)
  }

  function ParseLine(raw: string): Option<Value> {
    var v := Loads(raw);
    if v.None? then None else Unwrap(v.value)
  }

  function RecordValue(r: QRecord): Value {
    Obj(Member("line_no", Num(Decimal(r.lineNo)),
               Member("reason", Str(r.reason), Member("line", Str(r.line), NoMember))))
  }

  /** A quarantine record as written to the quarantine file. */
  function Dump(r: QRecord): string { Print(RecordValue(r)) }

  lemma RecordIsWellFormed(r: QRecord)
    ensures WellFormed(RecordValue(r))
  {
    DecimalIsANumber(r.lineNo);
    hide Decimal, NumberOk;
    var last := Member("line", Str(r.line), NoMember);
    var mid := Member("reason", Str(r.reason), last);
    var all := Member("line_no", Num(Decimal(r.lineNo)), mid);
    assert WellFormed(last.value) && WellFormed(mid.value) && WellFormed(all.value);
    assert WellFormedMembers(NoMember) && WellFormedMembers(last) && WellFormedMembers(mid) && WellFormedMembers(all);
  }

  lemma LookupStep(k: string, v: Value, rest: Members, key: string)
    ensures Lookup(Member(k, v, rest), key)
            == if Lookup(rest, key).Some? then Lookup(rest, key) else if k == key then Some(v) else None
    ensures Keys(Member(k, v, rest)) == {k} + Keys(rest)
    ensures Lookup(NoMember, key).None? && Keys(NoMember) == {}
  {
  }

  lemma RecordKeys(r: QRecord)
    ensures Keys(RecordValue(r).members) == QUARANTINE_KEYS
    ensures Lookup(RecordValue(r).members, "line") == Some(Str(r.line))
    ensures Lookup(RecordValue(r).members, "inn").None?
  {
    hide Decimal, Lookup, Keys;
    var last := Member("line", Str(r.line), NoMember);
    var mid := Member("reason", Str(r.reason), last);
    assert |"line"| == 4 && |"reason"| == 6 && |"line_no"| == 7 && |"inn"| == 3;
    LookupStep("line", Str(r.line), NoMember, "line");
    LookupStep("reason", Str(r.reason), last, "line");
    LookupStep("line_no", Num(Decimal(r.lineNo)), mid, "line");
    LookupStep("line", Str(r.line), NoMember, "inn");
    LookupStep("reason", Str(r.reason), last, "inn");
    LookupStep("line_no", Num(Decimal(r.lineNo)), mid, "inn");
  }

  lemma RecordIsRecognized(r: QRecord)
    ensures IsRecord(RecordValue(r)) && Lookup(RecordValue(r).members, "line") == Some(Str(r.line))
    ensures Lookup(RecordValue(r).members, "inn").None?
    ensures Loads(Dump(r)) == Some(RecordValue(r))
  {
    RecordIsWellFormed(r);
    RecordKeys(r);
    hide Keys, Lookup, WellFormed, Print, Loads;
    LoadsDumps(RecordValue(r));
  }

  /** Reading a written quarantine record gives what reading the original line gives, for
      any line, reason and number: also when the line is not JSON at all. */
  lemma QuarantineRoundTrip(r: QRecord)
    ensures ParseLine(Dump(r)) == Loads(r.line)
  {
    RecordIsRecognized(r);
  }

  // --- several failed rounds -------------------------------------------------------------

  /** The line as it stands in the quarantine file after each failed round: the record
      carries the raw line of that round, wrapper and all. */
  function AfterRounds(raw: string, rounds: seq<(nat, string)>): string {
    if rounds == [] then raw
    else
      var (lineNo, reason) := rounds[|rounds| - 1];
      Dump(QRecord(lineNo, reason, AfterRounds(raw, rounds[..|rounds| - 1])))
  }

  /** Only one level is removed: after k failed rounds the next parse sees what the file
      after k - 1 rounds denotes. */
  lemma OneLevelIsRemoved(raw: string, rounds: seq<(nat, string)>)
    requires rounds != []
    ensures ParseLine(AfterRounds(raw, rounds)) == Loads(AfterRounds(raw, rounds[..|rounds| - 1]))
  {
    var (lineNo, reason) := rounds[|rounds| - 1];
    QuarantineRoundTrip(QRecord(lineNo, reason, AfterRounds(raw, rounds[..|rounds| - 1])));
  }

  /** Enriching refuses a subject without a tax id. */
  ghost predicate NeedsInn(enrich: Members -> Verdict) {
    forall m :: Lookup(m, "inn").None? ==> enrich(m).Refused?
  }

  /** So a line that failed twice is refused for good, whatever the cabinet says by then:
      what is parsed is a quarantine record, which has no tax id. */
  lemma SecondFailureIsFinal(raw: string, rounds: seq<(nat, string)>, enrich: Members -> Verdict)
    requires |rounds| >= 2 && NeedsInn(enrich)
    ensures Fate(AfterRounds(raw, rounds), enrich).Refused?
  {
    var n := |rounds| - 1;
    OneLevelIsRemoved(raw, rounds);
    var (lineNo, reason) := rounds[n - 1];
    assert rounds[..n][n - 1] == rounds[n - 1];
    RecordIsRecognized(QRecord(lineNo, reason, AfterRounds(raw, rounds[..n][..n - 1])));
  }

  // --- numbering ---------------------------------------------------------------------------

  /** `str.isspace`. */
  predicate IsWhite(c: char) {
    c == ' ' || 9 <= c as int <= 13 || 28 <= c as int <= 31
    || c as int in {0x85, 0xA0, 0x1680, 0x2028, 0x2029, 0x202F, 0x205F, 0x3000} || 0x2000 <= c as int <= 0x200A
  }

  predicate Blank(line: string) { forall i :: 0 <= i < |line| ==> IsWhite(line[i]) }

  /** Non-blank lines with their 1-based number in the file. */
  function NumberedLines(lines: seq<string>): seq<Numbered> {
    if lines == [] then []
    else
      var n := |lines|;
      NumberedLines(lines[..n - 1]) + (if Blank(lines[n - 1]) then [] else [Numbered(n, lines[n - 1])])
  }

  /** Exactly the non-blank lines, in file order, under their true numbers. */
  lemma {:induction false} NumbersAreTrue(lines: seq<string>)
    ensures var r := NumberedLines(lines);
            && (forall i :: 0 <= i < |r| ==>
                               1 <= r[i].lineNo <= |lines| && r[i].raw == lines[r[i].lineNo - 1] && !Blank(r[i].raw))
            && (forall i, j :: 0 <= i < j < |r| ==> r[i].lineNo < r[j].lineNo)
            && (forall k :: 0 <= k < |lines| && !Blank(lines[k]) ==> Numbered(k + 1, lines[k]) in r)
  {
    TrueNumbersOf(lines);
  }

  ghost predicate TrueNumbers(lines: seq<string>, r: seq<Numbered>) {
    && (forall i :: 0 <= i < |r| ==>
                       1 <= r[i].lineNo <= |lines| && r[i].raw == lines[r[i].lineNo - 1] && !Blank(r[i].raw))
    && (forall i, j :: 0 <= i < j < |r| ==> r[i].lineNo < r[j].lineNo)
    && (forall k :: 0 <= k < |lines| && !Blank(lines[k]) ==> Numbered(k + 1, lines[k]) in r)
  }

  lemma {:induction false} TrueNumbersOf(lines: seq<string>)
    ensures TrueNumbers(lines, NumberedLines(lines))
  {
    if lines != [] {
      var n := |lines|;
      NumberedStep(lines);
      hide NumberedLines, TrueNumbers;
      TrueNumbersOf(lines[..n - 1]);
      OneMoreNumber(lines, NumberedLines(lines[..n - 1]));
    }
  }

  lemma OneMoreNumber(lines: seq<string>, r: seq<Numbered>)
    requires lines != [] && TrueNumbers(lines[..|lines| - 1], r)
    ensures var n := |lines|;
            TrueNumbers(lines, r + (if Blank(lines[n - 1]) then [] else [Numbered(n, lines[n - 1])]))
  {
    hide Blank;
    var n := |lines|;
    var last := if Blank(lines[n - 1]) then [] else [Numbered(n, lines[n - 1])];
    forall k | 0 <= k < n && !Blank(lines[k]) ensures Numbered(k + 1, lines[k]) in r + last {
      if k < n - 1 {
        assert lines[..n - 1][k] == lines[k];
      }
    }
  }

  lemma NumberedStep(lines: seq<string>)
    requires lines != []
    ensures var n := |lines|;
            NumberedLines(lines)
            == NumberedLines(lines[..n - 1]) + (if Blank(lines[n - 1]) then [] else [Numbered(n, lines[n - 1])])
  {
  }

  /** A line of one character is left out exactly for white space: the ASCII controls that
      separate, space, and the wide spaces and separators. */
  lemma BlankCharacterIff(c: char)
    ensures NumberedLines([[c]]) == [] <==>
            || c in " \t\n\r" || 0x2000 <= c as int < 0x200B
            || c as int in {0x0B, 0x0C, 0x1C, 0x1D, 0x1E, 0x1F, 0x85, 0xA0, 0x1680, 0x2028, 0x2029, 0x202F, 0x205F,
                            0x3000}
  {
    assert [[c]][..0] == [] && [c][0] == c;
    assert Blank([c]) <==> IsWhite(c);
  }

  /** And a line is, exactly if each of its characters would be. */
  lemma BlankLineIff(line: string)
    ensures NumberedLines([line]) == [] <==> forall i :: 0 <= i < |line| ==> NumberedLines([[line[i]]]) == []
  {
    assert [line][..0] == [];
    forall i | 0 <= i < |line| ensures NumberedLines([[line[i]]]) == [] <==> IsWhite(line[i]) {
      assert [[line[i]]][..0] == [] && [line[i]][0] == line[i];
      assert Blank([line[i]]) <==> IsWhite(line[i]);
    }
  }

  // --- splitting ---------------------------------------------------------------------------------

  /** What becomes of one raw line. */
  function Fate(raw: string, enrich: Members -> Verdict): Verdict {
    match ParseLine(raw)
    case None => Refused("broken JSON")
    case Some(v) => if v.Obj? then enrich(v.members) else Refused("line is not a JSON object")
  }

  function Subjects(lines: seq<Numbered>, enrich: Members -> Verdict): seq<string> {
    if lines == [] then []
    else
      var fate := Fate(lines[|lines| - 1].raw, enrich);
      Subjects(lines[..|lines| - 1], enrich) + (if fate.Enriched? then [fate.subject] else [])
  }

  function Rejects(lines: seq<Numbered>, enrich: Members -> Verdict): seq<QRecord> {
    if lines == [] then []
    else
      var x := lines[|lines| - 1];
      var fate := Fate(x.raw, enrich);
      Rejects(lines[..|lines| - 1], enrich) + (if fate.Refused? then [QRecord(x.lineNo, fate.reason, x.raw)] else [])
  }

  datatype Read = Read(line: Numbered, subject: Option<Members>, parseError: string)

  function ReadOne(x: Numbered): Read {
    match ParseLine(x.raw)
    case None => Read(x, None, "broken JSON")
    case Some(v) => if v.Obj? then Read(x, Some(v.members), "") else Read(x, None, "line is not a JSON object")
  }

  /** Parse every line first, then enrich or quarantine each in turn. */
  method SplitLines(lines: seq<Numbered>, enrich: Members -> Verdict)
    returns (enriched: seq<string>, quarantined: seq<QRecord>)
    ensures enriched == Subjects(lines, enrich) && quarantined == Rejects(lines, enrich)
  {
    var parsed: seq<Read> := [];
    for i := 0 to |lines|
      invariant |parsed| == i && forall j :: 0 <= j < i ==> parsed[j] == ReadOne(lines[j])
    {
      var v := ParseLine(lines[i].raw);
      if v.None? {
        parsed := parsed + [Read(lines[i], None, "broken JSON")];
      } else if !v.value.Obj? {
        parsed := parsed + [Read(lines[i], None, "line is not a JSON object")];
      } else {
        parsed := parsed + [Read(lines[i], Some(v.value.members), "")];
      }
    }
    enriched, quarantined := [], [];
    for i := 0 to |lines|
      invariant enriched == Subjects(lines[..i], enrich) && quarantined == Rejects(lines[..i], enrich)
    {
      var r := parsed[i];
      assert lines[..i + 1][..i] == lines[..i];
      var fate := if r.subject.Some? then enrich(r.subject.value) else Refused(r.parseError);
      if fate.Enriched? {
        enriched := enriched + [fate.subject];
      } else {
        quarantined := quarantined + [QRecord(r.line.lineNo, fate.reason, r.line.raw)];
      }
    }
    assert lines[..|lines|] == lines;
  }

  /** Line `i` is in exactly one output, at the place its predecessors leave for it: order
      is kept on both sides and the totals add up. */
  lemma {:induction false} EachLineOnce(lines: seq<Numbered>, enrich: Members -> Verdict, i: nat)
    requires i < |lines|
    ensures var fate, e, q := Fate(lines[i].raw, enrich), |Subjects(lines[..i], enrich)|, |Rejects(lines[..i], enrich)|;
            && e + q == i
            && (fate.Enriched? ==> e < |Subjects(lines, enrich)| && Subjects(lines, enrich)[e] == fate.subject)
            && (fate.Refused? ==> q < |Rejects(lines, enrich)|
                                  && Rejects(lines, enrich)[q] == QRecord(lines[i].lineNo, fate.reason, lines[i].raw))
  {
    hide Fate;
    var n := |lines| - 1;
    TotalsAddUp(lines[..i], enrich);
    if i < n {
      EachLineOnce(lines[..n], enrich, i);
      assert lines[..n][..i] == lines[..i];
    }
  }

  lemma {:induction false} TotalsAddUp(lines: seq<Numbered>, enrich: Members -> Verdict)
    ensures |Subjects(lines, enrich)| + |Rejects(lines, enrich)| == |lines|
  {
    if lines != [] {
      TotalsAddUp(lines[..|lines| - 1], enrich);
    }
  }
}
