/** One line against the cabinet: build the subject, or say why not. The guards are what
    keeps a credit history from being written under the wrong person. */
module EnrichLine {
  import opened Basics
  import opened Calendar
  import opened TaxId
  import opened Documents

  /** A cabinet row for one application. */
  datatype Row = Row(
    userId: int, appliedAt: Option<Stamp>, snap: Source, user: Source,
    snapPhone: string, userPhone: string, userInn: string)

  /** The parsed line: each deal's application reference, empty when it has none. */
  datatype Subject = Subject(inn: string, deals: seq<string>, lname: string, fname: string, bdate: string)

  /** Why a line is quarantined, with what the message quotes. */
  datatype Reason =
    | NoInn | NoDeals | NoReference | UnknownReference(dlref: string) | DifferentClients(userIds: set<int>)
    | CabinetHasNoInn(inn: string) | InnMismatch(inn: string) | NoDate | BadDocument(kind: Outcome) | NoPhone
    | MissingName | BirthdayContradicts(bdate: string, inn: string, expected: string)

  datatype Result =
    | Enriched(personId: int, vdate: Day, doc: Doc, phone: string)
    | Quarantined(reason: Reason)

  function OnlyDigits(s: string): string {
    if s == "" then "" else (if IsDigit(s[0]) then [s[0]] else "") + OnlyDigits(s[1..])
  }

  function NormalizePhone(value: string): Option<string> {
    var d := OnlyDigits(value);
    if |d| == 12 && d[..3] == "380" then Some("+" + d)
    else if |d| == 10 && d[0] == '0' then Some("+38" + d)
    else None
  }

  /** A number is accepted exactly if its digits are those of a Ukrainian number, with or
      without the country code; it goes out with a plus sign and the country code. */
  lemma NormalizePhoneIff(value: string, phone: string)
    ensures NormalizePhone(value) == Some(phone) <==>
            && |phone| == 13 && phone[..4] == "+380" && AllDigits(phone[1..])
            && (OnlyDigits(value) == phone[1..] || OnlyDigits(value) == phone[3..])
  {
    var d := OnlyDigits(value);
    OnlyDigitsAre(value);
    hide OnlyDigits;
    if |d| == 12 && d[..3] == "380" {
      SpelledWithCode(d);
    } else if |d| == 10 && d[0] == '0' {
      SpelledWithoutCode(d);
    }
    if |phone| == 13 && phone[..4] == "+380" {
      FromSpelling(phone);
    }
  }

  lemma SpelledWithCode(d: string)
    requires |d| == 12 && d[..3] == "380"
    ensures ("+" + d)[..4] == "+380" && ("+" + d)[1..] == d
  {
    assert ("+" + d)[..4] == "+" + d[..3];
  }

  lemma SpelledWithoutCode(d: string)
    requires |d| == 10 && d[0] == '0' && AllDigits(d)
    ensures ("+38" + d)[..4] == "+380" && ("+38" + d)[3..] == d && AllDigits(("+38" + d)[1..])
  {
    assert d[..1] == "0" && ("+38" + d)[..4] == "+38" + d[..1];
    assert ("+38" + d)[1..] == "38" + d && AllDigits("38");
  }

  lemma FromSpelling(phone: string)
    requires |phone| == 13 && phone[..4] == "+380"
    ensures phone[1..][..3] == "380" && phone[3..][0] == '0'
    ensures phone == "+" + phone[1..] && phone == "+38" + phone[3..]
  {
    assert phone[1..][..3] == phone[..4][1..] && phone[3..][0] == phone[..4][3];
    assert phone == phone[..4][..1] + phone[1..] && phone == phone[..4][..3] + phone[3..];
  }

  /** The digits of a text, in order, and nothing else. */
  lemma {:induction false} OnlyDigitsAre(s: string)
    ensures AllDigits(OnlyDigits(s))
    ensures AllDigits(s) ==> OnlyDigits(s) == s
    ensures forall c :: c in OnlyDigits(s) <==> c in s && '0' <= c <= '9'
  {
    if s != "" {
      OnlyDigitsAre(s[1..]);
      assert s == [s[0]] + s[1..];
    }
  }

  lemma {:induction false} OnlyDigitsOfParts(a: string, b: string)
    ensures OnlyDigits(a + b) == OnlyDigits(a) + OnlyDigits(b)
  {
    if a == "" {
      assert a + b == b;
    } else {
      OnlyDigitsStep(a);
      OnlyDigitsStep(a + b);
      hide OnlyDigits;
      OnlyDigitsOfParts(a[1..], b);
      assert (a + b)[1..] == a[1..] + b && (a + b)[0] == a[0];
    }
  }

  lemma OnlyDigitsStep(s: string)
    requires s != ""
    ensures OnlyDigits(s) == (if IsDigit(s[0]) then [s[0]] else "") + OnlyDigits(s[1..])
  {
  }

  function PhoneOf(row: Row): Option<string> {
    if NormalizePhone(row.snapPhone).Some? then NormalizePhone(row.snapPhone) else NormalizePhone(row.userPhone)
  }

  /** An ISO birth date that is not the one the tax id encodes. */
  predicate Contradicts(bdate: string, inn: string) {
    var head := if |bdate| >= 10 then bdate[..10] else bdate;
    InnBirthday(inn).Some? && IsoShaped(head) && head != InnBirthday(inn).value
  }

  /** The birth date the tax id encodes, for the message. */
  function ExpectedBirthday(inn: string): string {
    match InnBirthday(inn)
    case Some(day) => day
    case None => ""
  }

  predicate ValidRows(rows: map<string, Row>, peers: map<int, seq<Peer>>) {
    && (forall k :: k in rows && rows[k].appliedAt.Some? ==> ValidStamp(rows[k].appliedAt.value))
    && (forall u :: u in peers ==> ValidPeers(peers[u]))
  }

  function RowsOf(deals: seq<string>, rows: map<string, Row>): (r: seq<Row>)
    requires forall i :: 0 <= i < |deals| ==> Strip(deals[i]) in rows
    ensures |r| == |deals| && forall i :: 0 <= i < |r| ==> r[i] == rows[Strip(deals[i])]
  {
    seq(|deals|, i requires 0 <= i < |deals| => rows[Strip(deals[i])])
  }

  function RowTime(row: Row): Option<Stamp> { row.appliedAt }

  function PeersOf(peers: map<int, seq<Peer>>, userId: int): seq<Peer> {
    if userId in peers then peers[userId] else []
  }

  // --- what a safe line is -------------------------------------------------------------

  /** Every deal refers to a known application. */
  predicate DealsKnown(line: Subject, rows: map<string, Row>) {
    line.deals != [] && forall i :: 0 <= i < |line.deals| ==> Strip(line.deals[i]) != "" && Strip(line.deals[i]) in rows
  }

  /** The application everything is taken from. */
  function NewestRow(line: Subject, rows: map<string, Row>): Row
    requires DealsKnown(line, rows)
    requires forall k :: k in rows && rows[k].appliedAt.Some? ==> ValidStamp(rows[k].appliedAt.value)
  {
    var r := RowsOf(line.deals, rows);
    r[NewestIndex(Stamps(r, RowTime))]
  }

  /** What a safe line needs of its newest application. */
  predicate SafeRow(line: Subject, row: Row) {
    && Strip(row.userInn) == Strip(line.inn) && row.appliedAt.Some? && (Usable(row.snap) || Usable(row.user))
    && PhoneOf(row).Some? && Strip(line.lname) != "" && Strip(line.fname) != "" && Strip(line.bdate) != ""
    && !Contradicts(Strip(line.bdate), Strip(line.inn))
  }

  /** All the conditions under which a line may be sent. */
  predicate Safe(line: Subject, rows: map<string, Row>, peers: map<int, seq<Peer>>)
    requires ValidRows(rows, peers)
  {
    && Strip(line.inn) != "" && DealsKnown(line, rows)
    && (forall i, j :: 0 <= i < |line.deals| && 0 <= j < |line.deals| ==>
                         rows[Strip(line.deals[i])].userId == rows[Strip(line.deals[j])].userId)
    && SafeRow(line, NewestRow(line, rows))
  }

  /** The reason given is true of the line. */
  predicate Explains(reason: Reason, line: Subject, rows: map<string, Row>, peers: map<int, seq<Peer>>)
    requires ValidRows(rows, peers)
  {
    match reason
    case NoInn => Strip(line.inn) == ""
    case NoDeals => line.deals == []
    case NoReference => exists d :: d in line.deals && Strip(d) == ""
    case UnknownReference(dlref) => dlref != "" && dlref !in rows && exists d :: d in line.deals && Strip(d) == dlref
    case MissingName => Strip(line.lname) == "" || Strip(line.fname) == "" || Strip(line.bdate) == ""
    case BirthdayContradicts(bdate, inn, expected) =>
      && bdate == Strip(line.bdate) && inn == Strip(line.inn)
      && Contradicts(bdate, inn) && InnBirthday(inn) == Some(expected)
    case _ => DealsKnown(line, rows) && ExplainsByRow(reason, line, rows, peers)
  }

  predicate ExplainsByRow(reason: Reason, line: Subject, rows: map<string, Row>, peers: map<int, seq<Peer>>)
    requires ValidRows(rows, peers) && DealsKnown(line, rows)
  {
    var row := NewestRow(line, rows);
    match reason
    case DifferentClients(userIds) => userIds == UserIds(line, rows) && |userIds| > 1
    case CabinetHasNoInn(inn) => Strip(row.userInn) == "" && inn == Strip(line.inn)
    case InnMismatch(inn) => Strip(row.userInn) != "" && Strip(row.userInn) != inn && inn == Strip(line.inn)
    case NoDate => row.appliedAt.None?
    case BadDocument(kind) =>
      kind == Selected(DocRow(row.userId, row.snap, row.user), PeersOf(peers, row.userId)) && !kind.Built?
    case NoPhone => PhoneOf(row).None?
    case _ => false
  }

  /** The clients the deals belong to. */
  function UserIds(line: Subject, rows: map<string, Row>): set<int>
    requires DealsKnown(line, rows)
  {
    set d | d in line.deals :: rows[Strip(d)].userId
  }

  /** The first deal without a reference, or with an unknown one. */
  function FirstBadDeal(deals: seq<string>, rows: map<string, Row>): (bad: Option<Reason>)
    ensures bad.None? <==> forall i :: 0 <= i < |deals| ==> Strip(deals[i]) != "" && Strip(deals[i]) in rows
  {
    if deals == [] then None
    else if Strip(deals[0]) == "" then Some(NoReference)
    else if Strip(deals[0]) !in rows then Some(UnknownReference(Strip(deals[0])))
    else FirstBadDeal(deals[1..], rows)
  }

  lemma {:induction false} BadDealIsThere(deals: seq<string>, rows: map<string, Row>)
    requires FirstBadDeal(deals, rows).Some?
    ensures || (FirstBadDeal(deals, rows) == Some(NoReference) && exists d :: d in deals && Strip(d) == "")
            || (var bad := FirstBadDeal(deals, rows).value;
                bad.UnknownReference? && bad.dlref != "" && bad.dlref !in rows
                && exists d :: d in deals && Strip(d) == bad.dlref)
  {
    hide Strip;
    if Strip(deals[0]) != "" && Strip(deals[0]) in rows {
      BadDealIsThere(deals[1..], rows);
      assert forall d :: d in deals[1..] ==> d in deals;
    } else {
      assert deals[0] in deals;
    }
  }

  /** What the one client's newest application makes of the line. */
  function JudgedByRow(line: Subject, row: Row, peers: seq<Peer>): Result
    requires ValidPeers(peers)
  {
    var o := Selected(DocRow(row.userId, row.snap, row.user), peers);
    if Strip(row.userInn) != Strip(line.inn) then
      Quarantined(if Strip(row.userInn) == "" then CabinetHasNoInn(Strip(line.inn)) else InnMismatch(Strip(line.inn)))
    else if row.appliedAt.None? then Quarantined(NoDate)
    else if !o.Built? then Quarantined(BadDocument(o))
    else if PhoneOf(row).None? then Quarantined(NoPhone)
    else if Strip(line.lname) == "" || Strip(line.fname) == "" || Strip(line.bdate) == "" then Quarantined(MissingName)
    else if Contradicts(Strip(line.bdate), Strip(line.inn)) then
      Quarantined(BirthdayContradicts(Strip(line.bdate), Strip(line.inn),
                                      ExpectedBirthday(Strip(line.inn))))
    else Enriched(row.userId, row.appliedAt.value.day, o.doc, PhoneOf(row).value)
  }

  /** The verdict on a line: guard after guard, the first that fails names the reason. */
  ghost function Judged(line: Subject, rows: map<string, Row>, peers: map<int, seq<Peer>>): Result
    requires ValidRows(rows, peers)
  {
    if Strip(line.inn) == "" then Quarantined(NoInn)
    else if line.deals == [] then Quarantined(NoDeals)
    else if FirstBadDeal(line.deals, rows).Some? then Quarantined(FirstBadDeal(line.deals, rows).value)
    else if |UserIds(line, rows)| > 1 then Quarantined(DifferentClients(UserIds(line, rows)))
    else JudgedByRow(line, NewestRow(line, rows), PeersOf(peers, NewestRow(line, rows).userId))
  }

  class Summary {
    var linesIssuerFromPeer: nat
    var linesDocIncomplete: nat

    constructor ()
      ensures linesIssuerFromPeer == 0 && linesDocIncomplete == 0
    {
      linesIssuerFromPeer, linesDocIncomplete := 0, 0;
    }

    /** The rows of the deals, or the first failure. */
    method CollectRows(deals: seq<string>, rows: map<string, Row>) returns (found: seq<Row>, failure: Option<Reason>)
      ensures failure == FirstBadDeal(deals, rows)
      ensures failure.None? ==> found == RowsOf(deals, rows)
    {
      found := [];
      for i := 0 to |deals|
        invariant FirstBadDeal(deals, rows) == FirstBadDeal(deals[i..], rows)
        invariant forall j :: 0 <= j < i ==> Strip(deals[j]) in rows
        invariant |found| == i && forall j :: 0 <= j < i ==> found[j] == rows[Strip(deals[j])]
      {
        assert deals[i..][0] == deals[i] && deals[i..][1..] == deals[i + 1..];
        var dlref := Strip(deals[i]);
        if dlref == "" {
          return [], Some(NoReference);
        }
        if dlref !in rows {
          return [], Some(UnknownReference(dlref));
        }
        found := found + [rows[dlref]];
      }
      return found, None;
    }

    /** The guards on the client's newest application. */
    method JudgeRow(line: Subject, row: Row, peers: seq<Peer>) returns (r: Result)
      requires ValidPeers(peers)
      modifies this
      ensures r == JudgedByRow(line, row, peers)
      ensures r.Enriched? ==>
                var o := Selected(DocRow(row.userId, row.snap, row.user), peers);
                && o.Built?
                && linesIssuerFromPeer == old(linesIssuerFromPeer) + (if o.fromPeer then 1 else 0)
                && linesDocIncomplete == old(linesDocIncomplete) + (if o.incomplete then 1 else 0)
      ensures r.Quarantined? ==> unchanged(this)
    {
      hide Strip, Contradicts, Selected, NormalizePhone, PhoneOf;
      var inn := Strip(line.inn);
      if Strip(row.userInn) != inn {
        return Quarantined(if Strip(row.userInn) == "" then CabinetHasNoInn(inn) else InnMismatch(inn));
      }
      if row.appliedAt.None? { return Quarantined(NoDate); }
      var o := BuildDoc(DocRow(row.userId, row.snap, row.user), peers);
      if !o.Built? { return Quarantined(BadDocument(o)); }
      var phone := PhoneOf(row);
      if phone.None? { return Quarantined(NoPhone); }
      if Strip(line.lname) == "" || Strip(line.fname) == "" || Strip(line.bdate) == "" {
        return Quarantined(MissingName);
      }
      if Contradicts(Strip(line.bdate), inn) {
        return Quarantined(BirthdayContradicts(Strip(line.bdate), inn, ExpectedBirthday(inn)));
      }
      if o.fromPeer {
        linesIssuerFromPeer := linesIssuerFromPeer + 1;
      }
      if o.incomplete {
        linesDocIncomplete := linesDocIncomplete + 1;
      }
      return Enriched(row.userId, row.appliedAt.value.day, o.doc, phone.value);
    }

    /** The guards in the order the program asks; the counters move only for a line that
        passes them all. */
    method Enrich(line: Subject, rows: map<string, Row>, peers: map<int, seq<Peer>>) returns (r: Result)
      requires ValidRows(rows, peers)
      modifies this
      ensures r == Judged(line, rows, peers)
      ensures r.Enriched? ==>
                var row := NewestRow(line, rows);
                var o := Selected(DocRow(row.userId, row.snap, row.user), PeersOf(peers, row.userId));
                && linesIssuerFromPeer == old(linesIssuerFromPeer) + (if o.fromPeer then 1 else 0)
                && linesDocIncomplete == old(linesDocIncomplete) + (if o.incomplete then 1 else 0)
      ensures r.Quarantined? ==> unchanged(this)
    {
      hide Strip, JudgedByRow, Selected;
      if Strip(line.inn) == "" { return Quarantined(NoInn); }
      if line.deals == [] { return Quarantined(NoDeals); }
      var dealRows, failure := CollectRows(line.deals, rows);
      if failure.Some? { return Quarantined(failure.value); }
      SameIds(line, rows);
      var userIds := set r | r in dealRows :: r.userId;
      if |userIds| > 1 {
        return Quarantined(DifferentClients(userIds));
      }
      var row := dealRows[NewestIndex(Stamps(dealRows, RowTime))];
      r := JudgeRow(line, row, PeersOf(peers, row.userId));
    }
  }

  lemma SameIds(line: Subject, rows: map<string, Row>)
    requires DealsKnown(line, rows)
    ensures (set r | r in RowsOf(line.deals, rows) :: r.userId) == UserIds(line, rows)
  {
    hide Strip;
    var r := RowsOf(line.deals, rows);
    hide RowsOf;
    var ids := set x | x in r :: x.userId;
    forall id | id in UserIds(line, rows) ensures id in ids {
      var d :| d in line.deals && rows[Strip(d)].userId == id;
      var i :| 0 <= i < |line.deals| && line.deals[i] == d;
      assert r[i] in r;
    }
    forall id | id in ids ensures id in UserIds(line, rows) {
      var x :| x in r && x.userId == id;
      var i :| 0 <= i < |r| && r[i] == x;
      assert line.deals[i] in line.deals;
    }
  }

  /** Person, date, document and phone are those of the row. */
  predicate Describes(r: Result, row: Row, peers: map<int, seq<Peer>>)
    requires r.Enriched? && ValidPeers(PeersOf(peers, row.userId))
  {
    && r.personId == row.userId
    && Some(r.vdate) == (if row.appliedAt.Some? then Some(row.appliedAt.value.day) else None)
    && Some(r.phone) == (if NormalizePhone(row.snapPhone).Some? then NormalizePhone(row.snapPhone)
                         else NormalizePhone(row.userPhone))
    && var o := Selected(DocRow(row.userId, row.snap, row.user), PeersOf(peers, row.userId));
       o.Built? && o.doc == r.doc
  }

  /** A line is enriched exactly when it is safe, its person, date, document and phone then
      coming from the newest application of its one client; a reason for quarantine is
      true of the line. */
  lemma JudgedRightly(line: Subject, rows: map<string, Row>, peers: map<int, seq<Peer>>)
    requires ValidRows(rows, peers)
    ensures var r := Judged(line, rows, peers);
            && (r.Enriched? <==> Safe(line, rows, peers))
            && (r.Quarantined? ==> Explains(r.reason, line, rows, peers))
            && (r.Enriched? ==> Describes(r, NewestRow(line, rows), peers))
  {
    hide Strip, Contradicts, Selected, Usable, PhoneOf, NewestRow, ValidPeers, RowsOf;
    if Strip(line.inn) != "" && line.deals != [] {
      if FirstBadDeal(line.deals, rows).Some? {
        BadDealIsThere(line.deals, rows);
        hide FirstBadDeal;
      } else {
        KnownDealsJudged(line, rows, peers);
      }
    }
  }

  lemma KnownDealsJudged(line: Subject, rows: map<string, Row>, peers: map<int, seq<Peer>>)
    requires ValidRows(rows, peers) && Strip(line.inn) != "" && DealsKnown(line, rows)
    ensures var r := Judged(line, rows, peers);
            && (r.Enriched? <==> Safe(line, rows, peers))
            && (r.Quarantined? ==> Explains(r.reason, line, rows, peers))
            && (r.Enriched? ==> Describes(r, NewestRow(line, rows), peers))
  {
    ClientsOfDeals(line, rows);
    hide Strip, Contradicts, Selected, Usable, PhoneOf, NewestRow, ValidPeers, RowsOf, FirstBadDeal, UserIds,
         JudgedByRow, Describes, ExplainsByRow, SafeRow;
    if |UserIds(line, rows)| <= 1 {
      RowPasses(line, NewestRow(line, rows), peers);
      RowFails(line, rows, peers);
    } else {
      ManyClients(line, rows, peers);
    }
  }

  lemma ManyClients(line: Subject, rows: map<string, Row>, peers: map<int, seq<Peer>>)
    requires ValidRows(rows, peers) && DealsKnown(line, rows) && |UserIds(line, rows)| > 1
    ensures ExplainsByRow(DifferentClients(UserIds(line, rows)), line, rows, peers)
  {
  }

  lemma RowPasses(line: Subject, row: Row, peers: map<int, seq<Peer>>)
    requires ValidPeers(PeersOf(peers, row.userId))
    ensures var r := JudgedByRow(line, row, PeersOf(peers, row.userId));
            && (r.Enriched? <==> SafeRow(line, row))
            && (r.Enriched? ==> Describes(r, row, peers))
  {
    BuiltIff(DocRow(row.userId, row.snap, row.user), PeersOf(peers, row.userId));
    hide Strip, Contradicts, Selected, Usable, PhoneOf, ValidPeers, PeersOf;
  }

  lemma ContradictionIsKnown(bdate: string, inn: string)
    ensures Contradicts(bdate, inn) ==> InnBirthday(inn) == Some(ExpectedBirthday(inn))
  {
    hide InnBirthday;
  }

  lemma RowFails(line: Subject, rows: map<string, Row>, peers: map<int, seq<Peer>>)
    requires ValidRows(rows, peers) && DealsKnown(line, rows)
    ensures var row := NewestRow(line, rows);
            var r := JudgedByRow(line, row, PeersOf(peers, row.userId));
            r.Quarantined? ==> Explains(r.reason, line, rows, peers)
  {
    ContradictionIsKnown(Strip(line.bdate), Strip(line.inn));
    hide Strip, Contradicts, Selected, Usable, PhoneOf, NewestRow, ValidPeers, DealsKnown, InnBirthday,
         ExpectedBirthday;
  }

  /** More than one client exactly if two deals differ. */
  lemma ClientsOfDeals(line: Subject, rows: map<string, Row>)
    requires DealsKnown(line, rows)
    ensures |UserIds(line, rows)| > 1 <==>
            !(forall i, j :: 0 <= i < |line.deals| && 0 <= j < |line.deals| ==>
                               rows[Strip(line.deals[i])].userId == rows[Strip(line.deals[j])].userId)
  {
    hide Strip;
    var ids, first := UserIds(line, rows), rows[Strip(line.deals[0])].userId;
    assert line.deals[0] in line.deals && first in ids;
    if |ids| > 1 {
      assert ids != {first};
      var other :| other in ids && other != first;
      var d :| d in line.deals && rows[Strip(d)].userId == other;
      var j :| 0 <= j < |line.deals| && line.deals[j] == d;
      assert rows[Strip(line.deals[0])].userId != rows[Strip(line.deals[j])].userId;
    } else {
      assert |ids - {first}| == 0;
      assert ids == {first};
      forall i | 0 <= i < |line.deals| ensures rows[Strip(line.deals[i])].userId == first {
        assert line.deals[i] in line.deals && rows[Strip(line.deals[i])].userId in ids;
      }
    }
  }

  lemma BuiltIff(row: DocRow, peers: seq<Peer>)
    requires ValidPeers(peers)
    ensures Selected(row, peers).Built? <==> Usable(row.snap) || Usable(row.user)
  {
    DocumentSelection(row, peers);
  }

  /** A safe line names one client in every deal, that client's own tax id, the newest of
      its applications, and a birth date its tax id does not contradict. */
  lemma SafeMeansOnePerson(line: Subject, rows: map<string, Row>, peers: map<int, seq<Peer>>)
    requires ValidRows(rows, peers)
    ensures Safe(line, rows, peers) ==>
              var row := NewestRow(line, rows);
              && Strip(row.userInn) == Strip(line.inn)
              && (forall i :: 0 <= i < |line.deals| ==>
                                && Strip(line.deals[i]) in rows
                                && rows[Strip(line.deals[i])].userId == row.userId
                                && !Older(row.appliedAt, rows[Strip(line.deals[i])].appliedAt))
              && var bdate := Strip(line.bdate);
              && (|Strip(line.inn)| == 10 && AllDigits(Strip(line.inn)) && |bdate| >= 10 && IsoShaped(bdate[..10]) ==>
                    InnBirthday(Strip(line.inn)) == Some(bdate[..10]))
  {
    hide Strip, PhoneOf;
    if Safe(line, rows, peers) {
      var r := RowsOf(line.deals, rows);
      NewestIsNewest(Stamps(r, RowTime));
      var n := NewestIndex(Stamps(r, RowTime));
      forall i | 0 <= i < |line.deals| ensures !Older(r[n].appliedAt, r[i].appliedAt) {
        assert Stamps(r, RowTime)[i] == r[i].appliedAt;
      }
    }
  }

  // --- guard after guard ------------------------------------------------------------------------

  /** The place of each guard in the order the program asks. */
  function GuardOf(reason: Reason): nat {
    match reason
    case NoInn => 0
    case NoDeals => 1
    case NoReference => 2
    case UnknownReference(_) => 2
    case DifferentClients(_) => 3
    case CabinetHasNoInn(_) => 4
    case InnMismatch(_) => 4
    case NoDate => 5
    case BadDocument(_) => 6
    case NoPhone => 7
    case MissingName => 8
    case BirthdayContradicts(_, _, _) => 9
  }

  predicate Passes(guard: nat, line: Subject, rows: map<string, Row>, peers: map<int, seq<Peer>>)
    requires ValidRows(rows, peers)
  {
    if guard == 0 then Strip(line.inn) != ""
    else if guard == 1 then line.deals != []
    else if guard == 2 then
      forall i :: 0 <= i < |line.deals| ==> Strip(line.deals[i]) != "" && Strip(line.deals[i]) in rows
    else DealsKnown(line, rows) ==> PassesByRow(guard, line, NewestRow(line, rows), UserIds(line, rows))
  }

  predicate PassesByRow(guard: nat, line: Subject, row: Row, userIds: set<int>) {
    if guard == 3 then |userIds| <= 1
    else if guard == 4 then Strip(row.userInn) == Strip(line.inn)
    else if guard == 5 then row.appliedAt.Some?
    else if guard == 6 then ParseDocNumber(row.snap.number).Some? || ParseDocNumber(row.user.number).Some?
    else if guard == 7 then NormalizePhone(row.snapPhone).Some? || NormalizePhone(row.userPhone).Some?
    else if guard == 8 then Strip(line.lname) != "" && Strip(line.fname) != "" && Strip(line.bdate) != ""
    else !Contradicts(Strip(line.bdate), Strip(line.inn))
  }

  /** The reason given is that of the first guard that fails: all before it pass. */
  lemma FirstGuardThatFails(line: Subject, rows: map<string, Row>, peers: map<int, seq<Peer>>)
    requires ValidRows(rows, peers)
    ensures var r := Judged(line, rows, peers);
            if r.Enriched? then forall k: nat :: Passes(k, line, rows, peers)
            else !Passes(GuardOf(r.reason), line, rows, peers)
                 && forall k: nat :: k < GuardOf(r.reason) ==> Passes(k, line, rows, peers)
  {
    hide Strip, Contradicts, Selected, NormalizePhone, ParseDocNumber, NewestRow, RowsOf, UserIds, ExpectedBirthday;
    if Strip(line.inn) != "" && line.deals != [] && FirstBadDeal(line.deals, rows).None? {
      var row := NewestRow(line, rows);
      BuiltIff(DocRow(row.userId, row.snap, row.user), PeersOf(peers, row.userId));
    } else if FirstBadDeal(line.deals, rows).Some? {
      BadDealIsThere(line.deals, rows);
    }
    hide FirstBadDeal, ValidPeers;
  }

  // --- the birth date decides -----------------------------------------------------------------

  /** A birth date contradicts exactly if it starts in the shape of an ISO date and is not the
      date the ten digits of the tax id encode. */
  lemma ContradictsIff(bdate: string, inn: string)
    ensures Contradicts(bdate, inn) <==>
            && |inn| == 10 && AllDigits(inn) && |bdate| >= 10 && IsoShaped(bdate[..10])
            && (BirthDayInRange(inn); bdate[..10] != Iso(BirthDay(inn)))
  {
    hide BirthDay, Iso;
  }

  /** Two lines that differ in the birth date alone are judged alike up to that guard. */
  lemma BirthDateIsLast(line: Subject, rows: map<string, Row>, peers: map<int, seq<Peer>>, bdate: string)
    requires ValidRows(rows, peers) && Judged(line, rows, peers).Enriched? && Strip(bdate) != ""
    ensures Judged(line.(bdate := bdate), rows, peers)
            == if Contradicts(Strip(bdate), Strip(line.inn)) then
                 Quarantined(BirthdayContradicts(Strip(bdate), Strip(line.inn), ExpectedBirthday(Strip(line.inn))))
               else Judged(line, rows, peers)
  {
    hide Strip, Contradicts, Selected, NormalizePhone, PhoneOf, ExpectedBirthday, FirstBadDeal, RowsOf, NewestIndex;
    var other := line.(bdate := bdate);
    assert UserIds(other, rows) == UserIds(line, rows) && NewestRow(other, rows) == NewestRow(line, rows);
  }

  /** A line that passes with some birth date passes with a date `d` exactly if the tax id does
      not encode another one, else is refused naming both; and with any text that does not
      start in the shape of a date it passes whatever it says. */
  lemma BirthDateDecides(line: Subject, rows: map<string, Row>, peers: map<int, seq<Peer>>, bdate: string)
    requires ValidRows(rows, peers) && Judged(line, rows, peers).Enriched? && Strip(bdate) != ""
    ensures var inn, head := Strip(line.inn), if |Strip(bdate)| >= 10 then Strip(bdate)[..10] else Strip(bdate);
            var r := Judged(line.(bdate := bdate), rows, peers);
            && (|inn| != 10 || !AllDigits(inn) || !IsoShaped(head) ==> r == Judged(line, rows, peers))
            && (|inn| == 10 && AllDigits(inn) ==>
                  (BirthDayInRange(inn);
                   forall d: Day :: FourDigitYear(d) && head == Iso(d) ==>
                     && (r.Enriched? <==> d == BirthDay(inn))
                     && (r.Quarantined? ==> r.reason == BirthdayContradicts(Strip(bdate), inn, Iso(BirthDay(inn))))))
  {
    var inn := Strip(line.inn);
    BirthDateIsLast(line, rows, peers, bdate);
    ContradictsIff(Strip(bdate), inn);
    hide Strip, Judged, Contradicts, IsoShaped, BirthDay, Iso;
    if |inn| == 10 && AllDigits(inn) {
      BirthDayInRange(inn);
      forall d: Day | FourDigitYear(d)
        ensures IsoShaped(Iso(d)) && (Iso(d) == Iso(BirthDay(inn)) <==> d == BirthDay(inn))
      {
        IsoIsShaped(d);
        IsoOrder(d, BirthDay(inn));
      }
    }
  }
}
