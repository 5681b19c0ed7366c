/** Login sessions. The map lives in memory, under its own mutex, and a lookup evicts
    an expired entry; what it answers is nevertheless a function of the call history. */
module Sessions {
  import opened Models

  datatype Session = Session(accountId: string, expiresAt: int)

  /** `Other` is any call that does not touch the sessions. */
  datatype SessionCall =
    | Create(accountId: string, token: string)
    | GetAccountID(token: string)
    | Delete(token: string)
    | Other

  datatype Timed = Timed(now: int, call: SessionCall)

  /** The answer of a lookup, and the map it leaves. */
  function LookUp(sessions: map<string, Session>, token: string, now: int): (map<string, Session>, Option<string>) {
    if token !in sessions then (sessions, None)
    else if now > sessions[token].expiresAt then (sessions - {token}, None)
    else (sessions, Some(sessions[token].accountId))
  }

  function Serve(sessions: map<string, Session>, ttl: int, t: Timed): map<string, Session> {
    match t.call
    case Create(id, token) => sessions[token := Session(id, t.now + ttl)]
    case GetAccountID(token) => LookUp(sessions, token, t.now).0
    case Delete(token) => sessions - {token}
    case Other => sessions
  }

  /** The map after a history; the program starts with none. */
  function Replay(ttl: int, log: seq<Timed>): map<string, Session> {
    if log == [] then map[] else Serve(Replay(ttl, log[..|log| - 1]), ttl, log[|log| - 1])
  }

  /** What the history alone says of a token: the last creation, unless deleted since. */
  function LastSession(ttl: int, log: seq<Timed>, token: string): Option<Session> {
    if log == [] then None else
    var t := log[|log| - 1];
    if t.call.Create? && t.call.token == token then Some(Session(t.call.accountId, t.now + ttl))
    else if t.call.Delete? && t.call.token == token then None
    else LastSession(ttl, log[..|log| - 1], token)
  }

  /** The clock does not run backwards, and reads `now` afterwards. */
  ghost predicate ClockMonotone(log: seq<Timed>, now: int) {
    && (forall i, j | 0 <= i < j < |log| :: log[i].now <= log[j].now)
    && (forall i | 0 <= i < |log| :: log[i].now <= now)
  }

  /** The map holds what the history says, except expired entries already evicted. */
  ghost predicate Follows(sessions: map<string, Session>, last: Option<Session>, token: string, now: int) {
    if token in sessions then last == Some(sessions[token]) else last.None? || last.value.expiresAt < now
  }

  lemma {:induction false} SessionsFollowHistory(ttl: int, log: seq<Timed>, token: string, now: int)
    requires ClockMonotone(log, now)
    ensures Follows(Replay(ttl, log), LastSession(ttl, log, token), token, now)
  {
    if log != [] {
      SessionsFollowHistory(ttl, log[..|log| - 1], token, log[|log| - 1].now);
    }
  }

  /** A lookup finds an account exactly when the token was last created for it, not
      deleted since, and has not expired, whatever lookups evicted meanwhile. */
  lemma {:induction false} LookupFollowsHistory(ttl: int, log: seq<Timed>, token: string, now: int)
    requires ClockMonotone(log, now)
    ensures
      var last := LastSession(ttl, log, token);
      LookUp(Replay(ttl, log), token, now).1
      == if last.Some? && now <= last.value.expiresAt then Some(last.value.accountId) else None
  {
    SessionsFollowHistory(ttl, log, token, now);
  }

  class SessionService {
    var sessions: map<string, Session>
    const ttl: int

    constructor (ttl: int)
      ensures this.ttl == ttl && sessions == map[]
    {
      this.ttl := ttl;
      sessions := map[];
    }

    /** `token` is the fresh random token. */
    method Create(accountId: string, token: string, now: int) returns (expiresAt: int)
      modifies `sessions
      ensures expiresAt == now + ttl
      ensures sessions == Serve(old(sessions), ttl, Timed(now, SessionCall.Create(accountId, token)))
    {
      expiresAt := now + ttl;
      sessions := sessions[token := Session(accountId, expiresAt)];
    }

    method GetAccountID(token: string, now: int) returns (r: Option<string>)
      modifies `sessions
      ensures (sessions, r) == LookUp(old(sessions), token, now)
    {
      if token !in sessions {
        return None;
      }
      var rec := sessions[token];
      if now > rec.expiresAt {
        sessions := sessions - {token};
        return None;
      }
      r := Some(rec.accountId);
    }

    method Delete(token: string)
      modifies `sessions
      ensures sessions == old(sessions) - {token}
    {
      sessions := sessions - {token};
    }
  }
}
