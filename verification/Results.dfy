/** What one send can come back as. A reply is anything the bureau or the network
    can produce; `Interpret` maps it to the result the upload pass acts on. Field
    values are those already read out of the JSON body: `state` in lower case,
    `errtype` in upper case, codes as text. */
module Results {
  import opened Basics

  /** File and record statuses. A record is never `Partial`. */
  datatype Status = Pending | Partial | Sent | Failed | Rejected

  type RecordStatus = s: Status | s != Partial witness Pending

  datatype WarnCode = Ignored(code: string) | Notice(code: string)

  datatype UploadResult = UploadResult(
    status: RecordStatus,
    isNetworkError: bool := false,
    sessionExpired: bool := false,
    isLocalReject: bool := false,
    hasWarnings: bool := false,
    warnCodes: set<WarnCode> := {},
    componentsDropped: bool := false)

  datatype Item = Item(errtype: string, errcode: string) | NotAnObject

  /** The payload of a JSON body. */
  datatype Info = Info(
    mainErrcode: Option<string>, topErrcode: Option<string>, state: Option<string>,
    er: int, nt: int, ig: int, items: seq<Item>)

  datatype Body = NotJson | Json(info: Info)

  datatype Reply = TransportError | Response(http: int, body: Body)

  const SESSION_EXPIRED_ERRCODES: set<string> := {"2014"}
  const BENIGN_WARNING_CODES: set<string> := {"4014", "5001"}

  // --- warnings ------------------------------------------------------------------

  /** The finding an item reports, if it is a non-blocking one that names a code. */
  function Finding(item: Item): Option<WarnCode> {
    if item.NotAnObject? || item.errcode == "" then None
    else if item.errtype == "IGNORED" then Some(Ignored(item.errcode))
    else if item.errtype == "NOTICE" then Some(Notice(item.errcode))
    else None
  }

  function Findings(items: seq<Item>): set<WarnCode> {
    set item | item in items && Finding(item).Some? :: Finding(item).value
  }

  predicate AnyIgnored(codes: set<WarnCode>) {
    exists c :: c in codes && c.Ignored?
  }

  /** A code as it is stored, under the prefix of its severity. */
  function Stored(c: WarnCode): string {
    match c
    case Ignored(code) => "IG:" + code
    case Notice(code) => "NT:" + code
  }

  /** One pass over the items, collecting codes and watching for a dropped component; then
      the codes as stored, each once, in order. */
  method WarningCodes(items: seq<Item>) returns (stored: seq<string>, dropped: bool)
    ensures Ascending(stored, LexLess)
    ensures forall t :: t in stored <==>
              exists i :: 0 <= i < |items| && items[i].Item? && items[i].errcode != ""
                          && ((items[i].errtype == "IGNORED" && t == "IG:" + items[i].errcode)
                              || (items[i].errtype == "NOTICE" && t == "NT:" + items[i].errcode))
    ensures dropped <==>
              exists i :: 0 <= i < |items| && items[i].Item? && items[i].errtype == "IGNORED" && items[i].errcode != ""
  {
    ghost var found: set<WarnCode> := {};
    var codes: set<string> := {};
    dropped := false;
    for i := 0 to |items|
      invariant found == Findings(items[..i]) && codes == set c | c in found :: Stored(c)
      invariant dropped <==> AnyIgnored(found)
    {
      var finding := Finding(items[i]);
      assert items[..i + 1] == items[..i] + [items[i]];
      if finding.Some? {
        found := found + {finding.value};
        codes := codes + {Stored(finding.value)};
        dropped := dropped || finding.value.Ignored?;
      }
    }
    assert items[..|items|] == items;
    forall t ensures t in codes <==> exists i :: 0 <= i < |items| && Reports(items[i], t) {
      StoredCodes(items, t);
    }
    IgnoredItems(items);
    stored := SortedText(codes);
  }

  /** The item is stored as `t`. */
  predicate Reports(item: Item, t: string) {
    && item.Item? && item.errcode != ""
    && ((item.errtype == "IGNORED" && t == "IG:" + item.errcode)
        || (item.errtype == "NOTICE" && t == "NT:" + item.errcode))
  }

  lemma StoredCodes(items: seq<Item>, t: string)
    ensures t in (set c | c in Findings(items) :: Stored(c)) <==>
            exists i :: 0 <= i < |items| && Reports(items[i], t)
  {
    if i :| 0 <= i < |items| && Reports(items[i], t) {
      assert items[i] in items && Finding(items[i]).value in Findings(items);
    }
    if t in set c | c in Findings(items) :: Stored(c) {
      var c :| c in Findings(items) && Stored(c) == t;
      var item :| item in items && Finding(item) == Some(c);
      assert Reports(item, t);
    }
  }

  lemma IgnoredItems(items: seq<Item>)
    ensures AnyIgnored(Findings(items)) <==>
            exists i :: 0 <= i < |items| && items[i].Item? && items[i].errtype == "IGNORED" && items[i].errcode != ""
  {
    if i :| 0 <= i < |items| && items[i].Item? && items[i].errtype == "IGNORED" && items[i].errcode != "" {
      assert items[i] in items && Ignored(items[i].errcode) in Findings(items);
    }
    if AnyIgnored(Findings(items)) {
      var c :| c in Findings(items) && c.Ignored?;
      var item :| item in items && Finding(item) == Some(c);
    }
  }

  // --- from a reply to a result ------------------------------------------------------

  function MapState(info: Info): UploadResult {
    var codes := Findings(info.items);
    var dropped := AnyIgnored(codes) || info.ig > 0;
    if info.state == Some("ok") || info.state == Some("nt") then
      if info.er > 0 then
        UploadResult(Rejected, warnCodes := codes, componentsDropped := dropped)
      else
        var notable := (set c | c in codes :: c.code) - BENIGN_WARNING_CODES;
        UploadResult(Sent, warnCodes := codes, componentsDropped := dropped,
                     hasWarnings := notable != {} || dropped
                     || (codes == {} && (info.state == Some("nt") || info.nt > 0)))
    else if info.state == Some("er") then
      UploadResult(Rejected, warnCodes := codes, componentsDropped := dropped)
    else if info.state == Some("sy") then
      UploadResult(Failed, isNetworkError := true)
    else
      UploadResult(Failed)
  }

  /** A 200 body that reports a session errcode. */
  predicate StaleBody(info: Info) {
    var code := if info.mainErrcode.Some? then info.mainErrcode else info.topErrcode;
    code.Some? && code.value in SESSION_EXPIRED_ERRCODES
  }

  /** The body, not the HTTP code, decides. */
  predicate BodyDecides(http: int, body: Body) {
    body.Json? && http < 500 && (http == 200 || body.info.state.Some?)
  }

  function Interpret(http: int, body: Body): UploadResult {
    if http == 401 || http == 403 then
      UploadResult(Failed, isNetworkError := true, sessionExpired := true)
    else if http == 200 && body.Json? && StaleBody(body.info) then
      UploadResult(Failed, isNetworkError := true, sessionExpired := true)
    else if BodyDecides(http, body) then MapState(body.info)
    else if http >= 500 then UploadResult(Failed, isNetworkError := true)
    else UploadResult(Failed)
  }

  /** `send_prepared`, once the envelope is posted. */
  function Receive(reply: Reply): UploadResult {
    if reply.TransportError? then UploadResult(Failed, isNetworkError := true)
    else Interpret(reply.http, reply.body)
  }

  /** One send: refuse an oversize envelope locally, else post it and read the reply. */
  function SendOne(envelopeBytes: nat, maxLineBytes: nat, reply: Reply): UploadResult {
    if envelopeBytes > maxLineBytes then UploadResult(Rejected, isLocalReject := true) else Receive(reply)
  }

  // --- what the upload pass relies on ------------------------------------------------------

  /** Every result is one of these, whatever was received. */
  predicate WellFormed(r: UploadResult) {
    && r.status != Pending
    && (r.sessionExpired ==> r.isNetworkError)
    && (r.isNetworkError ==> r.status == Failed && !r.isLocalReject)
    && (r.isLocalReject ==> r.status == Rejected)
    && (r.status == Sent && r.componentsDropped ==> r.hasWarnings)
  }

  /** A result the send of an envelope of this size can have. */
  ghost predicate Fits(r: UploadResult, envelopeBytes: nat, maxLineBytes: nat) {
    WellFormed(r) && (r.isLocalReject <==> envelopeBytes > maxLineBytes) && Attested(r, envelopeBytes, maxLineBytes)
  }

  /** Some reply leads to it. */
  ghost predicate Attested(r: UploadResult, envelopeBytes: nat, maxLineBytes: nat) {
    exists reply :: SendOne(envelopeBytes, maxLineBytes, reply) == r
  }

  lemma EveryResultIsWellFormed(envelopeBytes: nat, maxLineBytes: nat, reply: Reply)
    ensures Fits(SendOne(envelopeBytes, maxLineBytes, reply), envelopeBytes, maxLineBytes)
  {
  }

  lemma EveryReplyIsWellFormed(reply: Reply)
    ensures WellFormed(Receive(reply)) && !Receive(reply).isLocalReject
    ensures reply.Response? && reply.http >= 500 ==> Receive(reply).isNetworkError && !Receive(reply).sessionExpired
  {
  }

  // --- what a reply must say, on its fields --------------------------------------------------

  /** The bureau's answer got through: neither the HTTP code nor a session code stands in its way. */
  predicate Answers(reply: Reply, i: Info) {
    && reply.Response? && reply.body == Json(i) && reply.http < 500 && reply.http != 401 && reply.http != 403
    && (reply.http == 200 ==> i.mainErrcode != Some("2014") && (i.mainErrcode.Some? || i.topErrcode != Some("2014")))
  }

  /** Accepted, with no component rejected. */
  predicate Accepts(reply: Reply) {
    && reply.Response? && reply.body.Json? && Answers(reply, reply.body.info)
    && reply.body.info.state in {Some("ok"), Some("nt")} && reply.body.info.er <= 0
  }

  /** Rejected as a whole, or accepted with some component rejected. */
  predicate Rejects(reply: Reply) {
    && reply.Response? && reply.body.Json? && Answers(reply, reply.body.info)
    && (reply.body.info.state == Some("er")
        || (reply.body.info.state in {Some("ok"), Some("nt")} && reply.body.info.er > 0))
  }

  /** The session is refused: by its HTTP code, or by the one code that says so in a 200 body. */
  predicate RefusesSession(reply: Reply) {
    reply.Response?
    && (reply.http == 401 || reply.http == 403
        || (reply.http == 200 && reply.body.Json?
            && (reply.body.info.mainErrcode == Some("2014")
                || (reply.body.info.mainErrcode.None? && reply.body.info.topErrcode == Some("2014")))))
  }

  /** Which reply becomes which result, whatever else it holds. All that is left fails, and
      counts as an outage exactly for no reply, a refused session, a 5xx, or state sy. */
  lemma ResultOfReply(reply: Reply)
    ensures var r := Receive(reply);
            && (r.status == Sent <==> Accepts(reply))
            && (r.status == Rejected <==> Rejects(reply))
            && (r.status == Failed <==> !Accepts(reply) && !Rejects(reply))
            && (r.sessionExpired <==> RefusesSession(reply))
            && (r.isNetworkError <==>
                || reply.TransportError? || RefusesSession(reply) || reply.http >= 500
                || (reply.body.Json? && reply.body.info.state == Some("sy")))
  {
    if reply.Response? && reply.body.Json? {
      var i := reply.body.info;
      assert StaleBody(i) <==> i.mainErrcode == Some("2014") || (i.mainErrcode.None? && i.topErrcode == Some("2014"));
      StatesDiffer();
    }
  }

  lemma StatesDiffer()
    ensures "ok" != "nt" && "ok" != "er" && "ok" != "sy" && "nt" != "er" && "nt" != "sy" && "er" != "sy"
  {
    assert "ok"[0] == 'o' && "nt"[0] == 'n' && "er"[0] == 'e' && "sy"[0] == 's';
  }

  /** Some reply leads to this result, and only replies of this kind do. */
  ghost predicate ComesFrom(r: UploadResult, kind: Reply -> bool) {
    (exists reply :: Receive(reply) == r) && forall reply :: Receive(reply) == r ==> kind(reply)
  }

  /** So a send ends well only with a small enough envelope and the bureau's acceptance, and
      is refused only for its size or by the bureau. */
  lemma FitsMeansAnswered(r: UploadResult, envelopeBytes: nat, maxLineBytes: nat)
    requires Fits(r, envelopeBytes, maxLineBytes)
    ensures r.status == Sent ==> envelopeBytes <= maxLineBytes && ComesFrom(r, Accepts)
    ensures r.status == Rejected ==> envelopeBytes > maxLineBytes || ComesFrom(r, Rejects)
  {
    var reply :| SendOne(envelopeBytes, maxLineBytes, reply) == r;
    assert envelopeBytes <= maxLineBytes ==> Receive(reply) == r;
    hide Receive, Accepts, Rejects, WellFormed;
    forall other | Receive(other) == r
      ensures r.status == Sent ==> Accepts(other)
      ensures r.status == Rejected ==> Rejects(other)
    {
      ResultOfReply(other);
    }
  }

  /** Among what a send can come to: a plain acceptance, a failure that counts, a refused
      session, and for an envelope that is too big nothing but the local reject. */
  lemma SomeOutcomes(envelopeBytes: nat, maxLineBytes: nat)
    ensures envelopeBytes <= maxLineBytes ==>
              && Fits(UploadResult(Sent), envelopeBytes, maxLineBytes)
              && Fits(UploadResult(Failed), envelopeBytes, maxLineBytes)
              && Fits(UploadResult(Failed, true, true), envelopeBytes, maxLineBytes)
    ensures envelopeBytes > maxLineBytes ==>
              Fits(UploadResult(Rejected, isLocalReject := true), envelopeBytes, maxLineBytes)
  {
    var accepted := Response(200, Json(Info(None, None, Some("ok"), 0, 0, 0, [])));
    assert (set c | c in Findings([]) :: c.code) == {} && Findings([]) == {};
    EveryResultIsWellFormed(envelopeBytes, maxLineBytes, accepted);
    EveryResultIsWellFormed(envelopeBytes, maxLineBytes, Response(404, NotJson));
    EveryResultIsWellFormed(envelopeBytes, maxLineBytes, Response(401, NotJson));
    assert Receive(accepted) == UploadResult(Sent) && Receive(Response(404, NotJson)) == UploadResult(Failed);
    hide Fits, Findings, MapState;
  }

  /** Findings about single components never change what becomes of the record: neither its
      status, nor whether the session or the network is blamed. */
  lemma ItemsNeverDecide(http: int, info: Info, items: seq<Item>)
    ensures var a, b := Interpret(http, Json(info)), Interpret(http, Json(info.(items := items)));
            a.status == b.status && a.isNetworkError == b.isNetworkError && a.sessionExpired == b.sessionExpired
  {
  }

  /** Below 500 a body with a state beats the HTTP code: two codes lead to the same result
      unless the body reports a stale session and just one of them is 200. */
  lemma CodeMattersIff(a: int, b: int, info: Info)
    requires a < 500 && b < 500 && a !in {401, 403} && b !in {401, 403}
    requires info.state.Some?
    ensures Interpret(a, Json(info)) == Interpret(b, Json(info)) <==> (StaleBody(info) ==> (a == 200 <==> b == 200))
  {
  }

  /** An accepted record counts as having lost a component exactly if the counter or an item
      says so, and it stays silent exactly if nothing was lost and every notice is one of the
      two that fire always, or there is none and the state and the counter show none. */
  lemma SilentAcceptance(reply: Reply)
    requires Accepts(reply)
    ensures var r, i := Receive(reply), reply.body.info;
            && (r.componentsDropped <==> i.ig > 0 || exists k :: 0 <= k < |i.items| && Names(i.items[k], "IGNORED"))
            && (!r.hasWarnings <==>
                && !r.componentsDropped
                && (forall k :: 0 <= k < |i.items| && Names(i.items[k], "NOTICE") ==>
                                  i.items[k].errcode in {"4014", "5001"})
                && ((exists k :: 0 <= k < |i.items| && Names(i.items[k], "NOTICE"))
                    || (i.state == Some("ok") && i.nt <= 0)))
  {
    var i := reply.body.info;
    var codes := Findings(i.items);
    ResultOfReply(reply);
    IgnoredItems(i.items);
    NoticedItems(i.items);
    StatesDiffer();
    assert Receive(reply) == MapState(i);
    hide Findings, AnyIgnored, Names;
    var notable := (set c | c in codes :: c.code) - BENIGN_WARNING_CODES;
    assert notable == {} <==> forall c :: c in codes ==> c.code in BENIGN_WARNING_CODES by {
      if c :| c in codes && c.code !in BENIGN_WARNING_CODES {
        assert c.code in notable;
      }
    }
  }

  /** An item of this type that names a code. */
  predicate Names(item: Item, errtype: string) { item.Item? && item.errtype == errtype && item.errcode != "" }

  lemma NoticedItems(items: seq<Item>)
    ensures AnyIgnored(Findings(items)) <==> exists k :: 0 <= k < |items| && Names(items[k], "IGNORED")
    ensures !AnyIgnored(Findings(items)) ==>
              && (Findings(items) == {} <==> !exists k :: 0 <= k < |items| && Names(items[k], "NOTICE"))
              && ((forall c :: c in Findings(items) ==> c.code in BENIGN_WARNING_CODES)
                  <==> forall k :: 0 <= k < |items| && Names(items[k], "NOTICE") ==>
                                     items[k].errcode in {"4014", "5001"})
  {
    IgnoredItems(items);
    forall k | 0 <= k < |items| && Names(items[k], "NOTICE") ensures Notice(items[k].errcode) in Findings(items) {
      assert items[k] in items && Finding(items[k]) == Some(Notice(items[k].errcode)) by {
        assert "NOTICE"[0] == 'N' && "IGNORED"[0] == 'I';
      }
    }
    forall c | c in Findings(items) && c.Notice?
      ensures exists k :: 0 <= k < |items| && Names(items[k], "NOTICE") && items[k].errcode == c.code
    {
      var item :| item in items && Finding(item) == Some(c);
    }
  }
}
