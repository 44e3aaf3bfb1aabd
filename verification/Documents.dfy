/** Which document an enriched line carries, and which clients need another application
    looked up for it. Text is ASCII plus the Ukrainian alphabet. */
module Documents {
  import opened Basics
  import opened Calendar
  import opened TaxId

  // --- document numbers --------------------------------------------------------------

  predicate IsSpace(c: char) {
    c == ' ' || 9 <= c as int <= 13 || 28 <= c as int <= 31
  }

  /** Upper case of ASCII and Cyrillic letters. */
  function Upper(c: char): char {
    var n := c as int;
    if 0x61 <= n <= 0x7A || 0x430 <= n <= 0x44F then (n - 32) as char
    else if 0x450 <= n <= 0x45F then (n - 80) as char
    else if n == 0x491 then 0x490 as char
    else c
  }

  /** `_normalize_number`: no white space, upper case. */
  function Normalize(s: string): string {
    if s == "" then ""
    else (if IsSpace(s[0]) then "" else [Upper(s[0])]) + Normalize(s[1..])
  }

  datatype DocType = Passport | IdCard

  datatype DocNumber = DocNumber(dtype: DocType, series: string, number: string)

  /** Nine digits, or two non-digits and six digits. */
  function ParseDocNumber(value: string): Option<DocNumber> {
    var n := Normalize(value);
    if |n| == 9 && AllDigits(n) then Some(DocNumber(IdCard, "", n))
    else if |n| == 8 && AllDigits(n[2..]) && !IsDigit(n[0]) && !IsDigit(n[1])
    then Some(DocNumber(Passport, n[..2], n[2..]))
    else None
  }

  lemma UpperTwice(c: char)
    ensures Upper(Upper(c)) == Upper(c)
    ensures !IsSpace(c) ==> !IsSpace(Upper(c))
  {
  }

  /** Normalizing again changes nothing, so a number parsed raw and the same number parsed
      after normalizing are the same document: both users of the parser agree. */
  lemma {:induction false} NormalizeIsIdempotent(s: string)
    ensures Normalize(Normalize(s)) == Normalize(s)
    ensures ParseDocNumber(Normalize(s)) == ParseDocNumber(s)
  {
    if s != "" {
      NormalizeIsIdempotent(s[1..]);
      UpperTwice(s[0]);
      if !IsSpace(s[0]) {
        var t := [Upper(s[0])] + Normalize(s[1..]);
        assert t[1..] == Normalize(s[1..]);
      } else {
        assert Normalize(s) == Normalize(s[1..]);
      }
    }
  }

  /** Nothing but white space is lost, nothing but case is changed: it works character by
      character. */
  lemma {:induction false} NormalizeParts(a: string, b: string)
    ensures Normalize(a + b) == Normalize(a) + Normalize(b)
  {
    if a == "" {
      assert a + b == b;
    } else {
      hide Upper, IsSpace;
      var head := if IsSpace(a[0]) then "" else [Upper(a[0])];
      NormalizeParts(a[1..], b);
      assert (a + b)[1..] == a[1..] + b && (a + b)[0] == a[0];
      assert Normalize(a) == head + Normalize(a[1..]) && Normalize(a + b) == head + Normalize(a[1..] + b);
      assert head + (Normalize(a[1..]) + Normalize(b)) == head + Normalize(a[1..]) + Normalize(b);
    }
  }

  /** What it does to one character: white space goes; a small letter becomes its capital,
      Latin, Cyrillic or Ukrainian; everything else stays. */
  lemma NormalizeOne(c: char)
    ensures c in " \t\n\r" || c as int in {11, 12, 28, 29, 30, 31} <==> Normalize([c]) == ""
    ensures 'a' <= c <= 'z' ==> Normalize([c]) == ['A' + (c - 'a')]
    ensures 0x430 <= c as int <= 0x44F ==> Normalize([c]) == [(c as int - 0x20) as char]
    ensures 0x450 <= c as int <= 0x45F ==> Normalize([c]) == [(c as int - 0x50) as char]
    ensures c as int == 0x491 ==> Normalize([c]) == [0x490 as char]
    ensures Normalize([c]) == "" || Normalize([c]) == [c] || 'a' <= c <= 'z'
            || 0x430 <= c as int <= 0x45F || c as int == 0x491
  {
    assert [c][1..] == "";
  }

  /** A number is read exactly as it is spelled out again, series and number, white space and
      case aside: nine digits for an ID card, else two characters that are no digits and six. */
  lemma ParseDocNumberIff(value: string, d: DocNumber)
    ensures ParseDocNumber(value) == Some(d) <==>
            && Normalize(value) == d.series + d.number && AllDigits(d.number)
            && (match d.dtype
                case IdCard => d.series == "" && |d.number| == 9
                case Passport =>
                  |d.series| == 2 && |d.number| == 6 && !('0' <= d.series[0] <= '9') && !('0' <= d.series[1] <= '9'))
  {
    hide Normalize;
    var n := Normalize(value);
    if |n| == 8 {
      assert n == n[..2] + n[2..];
    }
    if n == d.series + d.number {
      assert n[..|d.series|] == d.series && n[|d.series|..] == d.number;
    }
  }

  function Strip(s: string): string {
    if s == "" then ""
    else if IsSpace(s[0]) then Strip(s[1..])
    else if IsSpace(s[|s| - 1]) then Strip(s[..|s| - 1])
    else s
  }

  /** Only white space is taken off, and all of it at both ends. */
  lemma {:induction false} StripIsInside(s: string) returns (i: nat, j: nat)
    ensures i <= j <= |s| && Strip(s) == s[i..j]
    ensures forall k :: 0 <= k < i || j <= k < |s| ==> IsSpace(s[k])
    ensures Strip(s) != "" ==> !IsSpace(Strip(s)[0]) && !IsSpace(Strip(s)[|Strip(s)| - 1])
  {
    hide IsSpace;
    if s == "" {
      i, j := 0, 0;
    } else if IsSpace(s[0]) {
      i, j := StripIsInside(s[1..]);
      InsideTheTail(s, i, j);
      i, j := i + 1, j + 1;
    } else if IsSpace(s[|s| - 1]) {
      i, j := StripIsInside(s[..|s| - 1]);
      InsideTheFront(s, s[..|s| - 1], i, j);
    } else {
      i, j := 0, |s|;
    }
  }

  lemma InsideTheTail(s: string, i: nat, j: nat)
    requires s != "" && i <= j <= |s| - 1 && IsSpace(s[0])
    requires forall k :: 0 <= k < i || j <= k < |s| - 1 ==> IsSpace(s[1..][k])
    ensures s[1..][i..j] == s[i + 1..j + 1]
    ensures forall k :: 0 <= k < i + 1 || j + 1 <= k < |s| ==> IsSpace(s[k])
  {
    forall k | 0 < k < i + 1 || j + 1 <= k < |s| ensures IsSpace(s[k]) {
      assert s[k] == s[1..][k - 1];
    }
  }

  lemma InsideTheFront(s: string, front: string, i: nat, j: nat)
    requires s != "" && front == s[..|s| - 1] && i <= j <= |front| && IsSpace(s[|s| - 1])
    requires forall k :: 0 <= k < i || j <= k < |front| ==> IsSpace(front[k])
    ensures front[i..j] == s[i..j]
    ensures forall k :: 0 <= k < i || j <= k < |s| ==> IsSpace(s[k])
  {
    forall k | 0 <= k < i || j <= k < |front| ensures IsSpace(s[k]) {
      assert s[k] == front[k];
    }
  }

  // --- sources ------------------------------------------------------------------------------

  /** What one place of the cabinet says about a document; empty text is a missing value. */
  datatype Source = Source(number: string, issuedBy: string, issuedAt: Option<Day>)

  datatype Peer = Peer(number: string, issuedBy: string, issuedAt: Option<Day>, appliedAt: Option<Stamp>)

  datatype DocRow = DocRow(userId: int, snap: Source, user: Source)

  /** One `docs[]` entry; an empty `dwho` and a missing date are omitted keys. */
  datatype Doc = Doc(number: DocNumber, dwho: string, dwdt: Option<Day>, dterm: Option<Day>)

  predicate ValidPeers(peers: seq<Peer>) {
    forall i :: 0 <= i < |peers| && peers[i].appliedAt.Some? ==> ValidStamp(peers[i].appliedAt.value)
  }

  predicate IsCandidate(p: Peer, number: string) {
    Normalize(p.number) == number && Strip(p.issuedBy) != ""
  }

  function Candidates(peers: seq<Peer>, number: string): (c: seq<Peer>)
    ensures forall p :: p in c <==> p in peers && IsCandidate(p, number)
    ensures ValidPeers(peers) ==> ValidPeers(c)
  {
    if peers == [] then []
    else
      var rest := Candidates(peers[..|peers| - 1], number);
      assert peers == peers[..|peers| - 1] + [peers[|peers| - 1]];
      if IsCandidate(peers[|peers| - 1], number) then rest + [peers[|peers| - 1]] else rest
  }

  function PeerTime(p: Peer): Option<Stamp> { p.appliedAt }

  /** The newest application of the same client that states an issuer for this number. */
  function FindPeer(peers: seq<Peer>, number: string): Option<Peer>
    requires ValidPeers(peers)
  {
    var c := Candidates(peers, number);
    if c == [] then None else Some(c[NewestIndex(Stamps(c, PeerTime))])
  }

  /** A peer found is one of the peers, for the same number, with an issuer, and no other
      such peer is newer; none is found only if there is none. */
  lemma PeerIsSameDocument(peers: seq<Peer>, number: string)
    requires ValidPeers(peers)
    ensures var found := FindPeer(peers, number);
            && (found.None? <==> forall p :: p in peers && Normalize(p.number) == number ==> Strip(p.issuedBy) == "")
            && (found.Some? ==>
                  && found.value in peers && Normalize(found.value.number) == number
                  && Strip(found.value.issuedBy) != ""
                  && forall p :: p in peers && Normalize(p.number) == number && Strip(p.issuedBy) != "" ==>
                                   !Older(found.value.appliedAt, p.appliedAt))
  {
    var c := Candidates(peers, number);
    if c != [] {
      NewestIsNewest(Stamps(c, PeerTime));
      assert c[NewestIndex(Stamps(c, PeerTime))] in c;
      forall p | p in c ensures !Older(c[NewestIndex(Stamps(c, PeerTime))].appliedAt, p.appliedAt) {
        var i :| 0 <= i < |c| && c[i] == p;
        assert Stamps(c, PeerTime)[i] == p.appliedAt;
      }
    } else {
      forall p | p in peers ensures !IsCandidate(p, number) {
        assert p !in c;
      }
    }
    hide Normalize, Strip;
  }

  // --- one source, completed from the peers ------------------------------------------------------

  predicate Usable(s: Source) { ParseDocNumber(s.number).Some? }

  /** Issuer and date after the peers have filled in what the source left empty. */
  datatype Filled = Filled(issuedBy: string, issuedAt: Option<Day>, fromPeer: bool)

  function Fill(s: Source, peers: seq<Peer>): Filled
    requires ValidPeers(peers)
  {
    var own := Strip(s.issuedBy);
    if own != "" then Filled(own, s.issuedAt, false)
    else
      var peer := FindPeer(peers, Normalize(s.number));
      if peer.None? then Filled("", s.issuedAt, false)
      else Filled(Strip(peer.value.issuedBy), if s.issuedAt.Some? then s.issuedAt else peer.value.issuedAt, true)
  }

  function DocFields(n: DocNumber, f: Filled): Doc {
    Doc(n, f.issuedBy, f.issuedAt,
        if f.issuedAt.Some? && n.dtype == IdCard then Some(PlusYears(f.issuedAt.value, 10)) else None)
  }

  predicate IsComplete(s: Source, peers: seq<Peer>)
    requires ValidPeers(peers)
  {
    Usable(s) && Fill(s, peers).issuedBy != "" && Fill(s, peers).issuedAt.Some?
  }

  function DocOf(s: Source, peers: seq<Peer>): Doc
    requires ValidPeers(peers) && Usable(s)
  {
    DocFields(ParseDocNumber(s.number).value, Fill(s, peers))
  }

  // --- the choice -------------------------------------------------------------------------------------

  datatype Outcome =
    | Built(doc: Doc, fromPeer: bool, incomplete: bool)
    | UnsupportedFormat
    | NoNumber

  /** A complete source wins, the snapshot first; else the first usable one; else the kind
      of failure. */
  function Selected(row: DocRow, peers: seq<Peer>): Outcome
    requires ValidPeers(peers)
  {
    if IsComplete(row.snap, peers) then Built(DocOf(row.snap, peers), Fill(row.snap, peers).fromPeer, false)
    else if IsComplete(row.user, peers) then Built(DocOf(row.user, peers), Fill(row.user, peers).fromPeer, false)
    else if Usable(row.snap) then Built(DocOf(row.snap, peers), false, true)
    else if Usable(row.user) then Built(DocOf(row.user, peers), false, true)
    else if Normalize(row.snap.number) != "" || Normalize(row.user.number) != "" then UnsupportedFormat
    else NoNumber
  }

  /** The loop over the two sources, keeping the first partial document aside. */
  method BuildDoc(row: DocRow, peers: seq<Peer>) returns (o: Outcome)
    requires ValidPeers(peers)
    ensures o == Selected(row, peers)
  {
    hide Fill, DocFields;
    var partial: Option<Doc> := None;
    var sawAnyNumber := false;
    var sources := [row.snap, row.user];
    for i := 0 to 2
      invariant sawAnyNumber <==> exists j :: 0 <= j < i && Normalize(sources[j].number) != ""
      invariant forall j :: 0 <= j < i ==> !IsComplete(sources[j], peers)
      invariant partial == if i > 0 && Usable(row.snap) then Some(DocOf(row.snap, peers))
                           else if i > 1 && Usable(row.user) then Some(DocOf(row.user, peers)) else None
    {
      var s := sources[i];
      var number := Normalize(s.number);
      NormalizeIsIdempotent(s.number);
      if number != "" {
        sawAnyNumber := true;
        var parsed := ParseDocNumber(number);
        if parsed.Some? {
          var f := Fill(s, peers);
          var doc := DocFields(parsed.value, f);
          assert parsed == ParseDocNumber(s.number) && doc == DocOf(s, peers);
          if f.issuedBy != "" && f.issuedAt.Some? {
            assert IsComplete(s, peers);
            assert s == if i == 0 then row.snap else row.user;
            assert i == 1 ==> sources[0] == row.snap && !IsComplete(sources[0], peers);
            return Built(doc, f.fromPeer, false);
          }
          if partial.None? {
            partial := Some(doc);
          }
        }
      }
    }
    assert sources[0] == row.snap && sources[1] == row.user;
    if partial.Some? {
      return Built(partial.value, false, true);
    }
    return if sawAnyNumber then UnsupportedFormat else NoNumber;
  }

  predicate CompleteDoc(d: Doc) { d.dwho != "" && d.dwdt.Some? }

  /** A document is built exactly when some source parses, and is complete exactly when some
      parseable source is complete after peer filling, the snapshot preferred. The flags
      say which, and an ID card gets its term exactly when it has a date. */
  lemma DocumentSelection(row: DocRow, peers: seq<Peer>)
    requires ValidPeers(peers)
    ensures var o := Selected(row, peers);
            && (o.Built? <==> Usable(row.snap) || Usable(row.user))
            && (o.Built? && CompleteDoc(o.doc) <==> IsComplete(row.snap, peers) || IsComplete(row.user, peers))
            && (o.Built? ==> (o.incomplete <==> !CompleteDoc(o.doc)))
            && (IsComplete(row.snap, peers) ==> o == Built(DocOf(row.snap, peers), o.fromPeer, false))
            && (o.NoNumber? <==> Normalize(row.snap.number) == "" && Normalize(row.user.number) == "")
            && (o.Built? ==> (o.doc.dterm.Some? <==> o.doc.dwdt.Some? && o.doc.number.dtype == IdCard))
  {
  }

  /** The source a document is built from: a complete one, the snapshot first, else the first
      usable one. */
  function Chosen(row: DocRow, peers: seq<Peer>): Source
    requires ValidPeers(peers)
  {
    if IsComplete(row.snap, peers) || (Usable(row.snap) && !IsComplete(row.user, peers)) then row.snap else row.user
  }

  /** Every field of a built document is the source's own where it has one. Only for want of an
      issuer a peer steps in: one of the same client, for the same normalized number, none
      newer; it gives its issuer, and its date for want of a date. Recovery is reported exactly
      if that made the document complete. */
  lemma DocumentFields(row: DocRow, peers: seq<Peer>)
    requires ValidPeers(peers) && Selected(row, peers).Built?
    ensures var o, s := Selected(row, peers), Chosen(row, peers);
            && ParseDocNumber(s.number) == Some(o.doc.number)
            && (s.issuedAt.Some? ==> o.doc.dwdt == s.issuedAt)
            && (Strip(s.issuedBy) != "" ==> o.doc.dwho == Strip(s.issuedBy) && o.doc.dwdt == s.issuedAt && !o.fromPeer)
            && (Strip(s.issuedBy) == "" ==>
                  if NoneStates(peers, Normalize(s.number))
                  then o.doc.dwho == "" && o.doc.dwdt == s.issuedAt && !o.fromPeer
                  else (o.fromPeer <==> o.doc.dwdt.Some?) && CompletedBy(o.doc, s, peers))
  {
    var s := Chosen(row, peers);
    ChosenIsBuilt(row, peers);
    FilledFields(s, peers);
    hide Normalize, Strip, FindPeer, ParseDocNumber, Fill, Selected, Chosen, CompletedBy, NoneStates;
  }

  lemma ChosenIsBuilt(row: DocRow, peers: seq<Peer>)
    requires ValidPeers(peers) && Selected(row, peers).Built?
    ensures var o, s := Selected(row, peers), Chosen(row, peers);
            && Usable(s) && o.doc == DocOf(s, peers)
            && (o.fromPeer <==> IsComplete(s, peers) && Fill(s, peers).fromPeer)
  {
    hide Fill, ParseDocNumber, DocFields;
  }

  /** No peer states an issuer for this number. */
  predicate NoneStates(peers: seq<Peer>, number: string) {
    forall p :: p in peers && Normalize(p.number) == number ==> Strip(p.issuedBy) == ""
  }

  /** Issuer, and for want of an own date also the date, are those of a newest peer that states
      an issuer for this number. */
  ghost predicate CompletedBy(doc: Doc, s: Source, peers: seq<Peer>) {
    exists p :: p in peers && Normalize(p.number) == Normalize(s.number) && Strip(p.issuedBy) != ""
                && doc.dwho == Strip(p.issuedBy) && (s.issuedAt.None? ==> doc.dwdt == p.issuedAt)
                && NoneNewer(p, peers, Normalize(s.number))
  }

  predicate NoneNewer(p: Peer, peers: seq<Peer>, number: string) {
    forall q :: q in peers && Normalize(q.number) == number && Strip(q.issuedBy) != "" ==>
                  !Older(p.appliedAt, q.appliedAt)
  }

  lemma FilledFields(s: Source, peers: seq<Peer>)
    requires ValidPeers(peers)
    ensures var f := Fill(s, peers);
            && (s.issuedAt.Some? ==> f.issuedAt == s.issuedAt)
            && (Strip(s.issuedBy) != "" ==> f == Filled(Strip(s.issuedBy), s.issuedAt, false))
            && (Strip(s.issuedBy) == "" && NoneStates(peers, Normalize(s.number)) ==>
                  f == Filled("", s.issuedAt, false))
            && (Strip(s.issuedBy) == "" && !NoneStates(peers, Normalize(s.number)) ==>
                  && f.fromPeer && f.issuedBy != ""
                  && forall n, t :: CompletedBy(Doc(n, f.issuedBy, f.issuedAt, t), s, peers))
  {
    PeerIsSameDocument(peers, Normalize(s.number));
    hide Normalize, Strip, FindPeer, Older;
    if Strip(s.issuedBy) == "" && !NoneStates(peers, Normalize(s.number)) {
      var p := FindPeer(peers, Normalize(s.number)).value;
      assert NoneNewer(p, peers, Normalize(s.number));
      forall n, t ensures CompletedBy(Doc(n, Strip(p.issuedBy), Fill(s, peers).issuedAt, t), s, peers) {
        assert p in peers;
      }
    }
  }

  /** An ID card with a date has a term, the same day ten years on, or 28 February for want of
      a 29th; nothing else has one. */
  lemma TermIsTenYears(row: DocRow, peers: seq<Peer>)
    requires ValidPeers(peers) && Selected(row, peers).Built?
    ensures var doc := Selected(row, peers).doc;
            && (doc.dterm.Some? <==> doc.number.dtype == IdCard && doc.dwdt.Some?)
            && (doc.dterm.Some? ==>
                  var from, to := doc.dwdt.value, doc.dterm.value;
                  && to.year == from.year + 10 && to.month == from.month
                  && to.day == if from.month == 2 && from.day == 29 && !IsLeap(to.year) then 28 else from.day)
  {
    var doc := Selected(row, peers).doc;
    if doc.dterm.Some? {
      PlusYearsIsThatDay(doc.dwdt.value, 10);
    }
    hide Fill, ParseDocNumber, Normalize;
  }

  // --- who needs a peer lookup ---------------------------------------------------------------------

  predicate HasIssuer(s: Source) { Strip(s.issuedBy) != "" }

  /** Some usable source lacks an issuer and none has one. */
  predicate NeedsIssuer(row: DocRow) {
    && ((Usable(row.snap) && !HasIssuer(row.snap)) || (Usable(row.user) && !HasIssuer(row.user)))
    && !(Usable(row.snap) && HasIssuer(row.snap)) && !(Usable(row.user) && HasIssuer(row.user))
  }

  /** The clients to look up, each once, in ascending order. */
  method ClientsMissingIssuer(rows: map<string, DocRow>) returns (clients: seq<int>)
    ensures forall i, j :: 0 <= i < j < |clients| ==> clients[i] < clients[j]
    ensures forall u :: u in clients <==> exists k :: k in rows && NeedsIssuer(rows[k]) && rows[k].userId == u
  {
    var need: set<int> := {};
    var todo := rows.Keys;
    ghost var seen: set<string> := {};
    while todo != {}
      invariant seen + todo == rows.Keys && seen !! todo
      invariant need == set k | k in seen && NeedsIssuer(rows[k]) :: rows[k].userId
      decreases todo
    {
      var key :| key in todo;
      var row := rows[key];
      var complete, missing := false, false;
      var sources := [row.snap, row.user];
      for i := 0 to 2
        invariant complete <==> exists j :: 0 <= j < i && Usable(sources[j]) && HasIssuer(sources[j])
        invariant missing <==> exists j :: 0 <= j < i && Usable(sources[j]) && !HasIssuer(sources[j])
      {
        if ParseDocNumber(sources[i].number).Some? {
          if Strip(sources[i].issuedBy) != "" {
            complete := true;
          } else {
            missing := true;
          }
        }
      }
      assert sources[0] == row.snap && sources[1] == row.user;
      assert missing && !complete <==> NeedsIssuer(row);
      if missing && !complete {
        need := need + {row.userId};
      }
      seen, todo := seen + {key}, todo - {key};
    }
    clients := Sorted(need, (a, b) => a < b);
  }

  /** Exactly which rows would send a document without an issuer if no peer were looked up:
      those the lookup picks, and the one case it misses, where the snapshot lacks an
      issuer while `users` has an issuer but no date. */
  lemma LacksIssuerIff(row: DocRow)
    ensures (Selected(row, []).Built? && Selected(row, []).doc.dwho == "") <==>
            NeedsIssuer(row)
            || (Usable(row.snap) && !HasIssuer(row.snap)
                && Usable(row.user) && HasIssuer(row.user) && row.user.issuedAt.None?)
  {
    assert Candidates([], Normalize(row.snap.number)) == [];
    assert Candidates([], Normalize(row.user.number)) == [];
  }

  /** In the missed case a peer that would complete the snapshot's document is never
      fetched, and the document goes out incomplete. */
  lemma MissedLookup(row: DocRow, peers: seq<Peer>)
    requires ValidPeers(peers)
    requires Usable(row.snap) && !HasIssuer(row.snap) && row.snap.issuedAt.Some?
    requires Usable(row.user) && HasIssuer(row.user) && row.user.issuedAt.None?
    requires exists p :: p in peers && IsCandidate(p, Normalize(row.snap.number))
    ensures !NeedsIssuer(row)
    ensures Selected(row, []).Built? && Selected(row, []).incomplete && Selected(row, []).doc.dwho == ""
    ensures Selected(row, peers).Built? && !Selected(row, peers).incomplete
  {
    hide Normalize, ParseDocNumber, Strip;
    LacksIssuerIff(row);
    DocumentSelection(row, []);
    PeerIsSameDocument(peers, Normalize(row.snap.number));
  }

  /** Such rows exist, for every ID card: the snapshot states the date, `users` the issuer,
      and a third application both. */
  lemma MissedLookupHappens(n: string, issuer: string, issued: Day)
    requires |n| == 9 && AllDigits(n) && Strip(issuer) != ""
    ensures var row := DocRow(1, Source(n, "", Some(issued)), Source(n, issuer, None));
            var peers := [Peer(n, issuer, Some(issued), None)];
            && !NeedsIssuer(row)
            && Selected(row, []).Built? && Selected(row, []).incomplete
            && Selected(row, peers).Built? && !Selected(row, peers).incomplete
  {
    var row := DocRow(1, Source(n, "", Some(issued)), Source(n, issuer, None));
    var peers := [Peer(n, issuer, Some(issued), None)];
    NormalizeDigits(n);
    assert peers[0] in peers && IsCandidate(peers[0], Normalize(n));
    MissedLookup(row, peers);
  }

  lemma {:induction false} NormalizeDigits(s: string)
    requires AllDigits(s)
    ensures Normalize(s) == s
  {
    if s != "" {
      assert IsDigit(s[0]);
      NormalizeDigits(s[1..]);
      assert s == [s[0]] + s[1..];
    }
  }
}
