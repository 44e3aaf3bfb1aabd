/** Who authenticates, and how often. The bureau forbids frequent authentication, so one
    session is cached for the day and shared by every pass; the parallel path renews it at
    most once per pass, the sequential path at most once per record. Answers of the
    bureau are parameters. */
module Session {
  import opened Basics
  import opened Results

  /** An empty session id is no session id. */
  function Granted(answer: Option<string>): Option<string> {
    if answer == Some("") then None else answer
  }

  predicate IsSession(id: Option<string>) { id.Some? && |id.value| > 0 }

  /** The two `meta` rows the session is cached in. */
  class Cache {
    var token: Option<string>
    var day: Option<int>

    constructor ()
      ensures token == None && day == None
    {
      token, day := None, None;
    }

    /** A session of another day is not used. */
    function Load(today: int): Option<string>
      reads this
    {
      if day == Some(today) then Granted(token) else None
    }

    method Save(id: string, today: int)
      modifies this
      ensures token == Some(id) && day == Some(today)
    {
      token := Some(id);
      day := Some(today);
    }
  }

  class Client {
    const cache: Cache
    var sessid: Option<string>
    ghost var auths: nat

    constructor (cache: Cache)
      ensures this.cache == cache && sessid == None && auths == 0
    {
      this.cache, sessid, auths := cache, None, 0;
    }

    /** The session this client would use without asking for one. */
    function Known(today: int): Option<string>
      reads this, cache
    {
      if Granted(sessid).Some? then sessid else cache.Load(today)
    }

    method Auth(answer: Option<string>, today: int) returns (s: Option<string>)
      modifies this, cache
      ensures auths == old(auths) + 1 && s == Granted(answer)
      ensures s.Some? <==> answer.Some? && answer.value != ""
      ensures s.Some? ==> s == answer == sessid == cache.token && cache.day == Some(today)
      ensures s.Some? ==> cache.Load(today) == s
      ensures s.None? ==> sessid == old(sessid) && cache.token == old(cache.token) && cache.day == old(cache.day)
    {
      auths := auths + 1;
      s := Granted(answer);
      if s.Some? {
        sessid := s;
        cache.Save(s.value, today);
      }
    }

    /** The client's own session, else the one cached today, else a new one: only then is
        the bureau asked, and an empty session, or one of another day, is none. */
    method EnsureSession(answer: Option<string>, today: int) returns (s: Option<string>)
      modifies this, cache
      ensures !IsSession(old(sessid)) && !(old(cache.day) == Some(today) && IsSession(old(cache.token))) <==>
              auths == old(auths) + 1
      ensures s == if IsSession(old(sessid)) then old(sessid)
                   else if old(cache.day) == Some(today) && IsSession(old(cache.token)) then old(cache.token)
                   else if IsSession(answer) then answer else None
      ensures s == (if old(Known(today)).Some? then old(Known(today)) else Granted(answer)) == Known(today)
      ensures auths == old(auths) + (if old(Known(today)).Some? then 0 else 1)
      ensures old(Known(today)).Some? || s.None? ==> cache.token == old(cache.token) && cache.day == old(cache.day)
      ensures s.Some? ==> sessid == s
      ensures old(Known(today)).None? ==> cache.Load(today) == s
    {
      if Granted(sessid).Some? {
        return sessid;
      }
      var cached := cache.Load(today);
      if cached.Some? {
        sessid := cached;
        return cached;
      }
      s := Auth(answer, today);
    }

    /** A refused renewal leaves this client without a session, and the cache with the
        stale one: the next pass of the day starts from that again. */
    method Reauth(answer: Option<string>, today: int) returns (s: Option<string>)
      modifies this, cache
      ensures auths == old(auths) + 1 && s == Granted(answer) && sessid == s
      ensures Known(today) == cache.Load(today) == if s.Some? then s else old(cache.Load(today))
    {
      sessid := None;
      s := Auth(answer, today);
    }

    /** The sequential post: a stale session is dropped and reported as nothing. */
    method PostRecord(reply: Reply) returns (r: Option<UploadResult>)
      modifies this
      ensures r == if Receive(reply).sessionExpired then None else Some(Receive(reply))
      ensures sessid == (if r.None? then None else old(sessid)) && auths == old(auths)
    {
      var result := Receive(reply);
      if result.sessionExpired {
        sessid := None;
        return None;
      }
      return Some(result);
    }

    /** The sequential path. It posts at most twice, twice only when the first reply was a
        stale session and a fresh one was granted, never reports a stale session itself,
        and reports anything but a network-like failure only as the last reply states it. */
    method UploadRecord(login: Option<string>, reply: Reply, renewal: Option<string>, retried: Reply, today: int)
      returns (r: UploadResult, ghost posts: nat)
      modifies this, cache
      ensures WellFormed(r) && !r.sessionExpired
      ensures posts == if (if old(Known(today)).Some? then old(Known(today)) else Granted(login)).None? then 0
                       else if Receive(reply).sessionExpired && Granted(renewal).Some? then 2 else 1
      ensures !r.isNetworkError ==> posts >= 1 && r == Receive(if posts == 1 then reply else retried)
      ensures posts >= 1 && !Receive(if posts == 1 then reply else retried).sessionExpired
              ==> r == Receive(if posts == 1 then reply else retried)
      ensures auths == old(auths) + (if old(Known(today)).Some? then 0 else 1)
                       + (if posts >= 1 && Receive(reply).sessionExpired then 1 else 0)
    {
      EveryReplyIsWellFormed(reply);
      EveryReplyIsWellFormed(retried);
      posts := 0;
      var s := EnsureSession(login, today);
      if s.None? {
        return UploadResult(Failed, isNetworkError := true), posts;
      }
      posts := 1;
      var first := PostRecord(reply);
      if first.Some? {
        return first.value, posts;
      }
      s := Auth(renewal, today);
      if s.None? {
        return UploadResult(Failed, isNetworkError := true), posts;
      }
      posts := 2;
      var second := PostRecord(retried);
      r := if second.Some? then second.value else UploadResult(Failed, isNetworkError := true);
    }
  }
}
