/** Sessions, verdicts and passwords over whole histories, told from the entries and the
    rows alone. */
module GateFacts {
  import opened Models
  import opened Sums
  import opened Accounts
  import opened AccountFacts
  import opened Sessions
  import opened Gate

  // ---- sessions come from logins -----------------------------------------------------------

  /** The event is a login that gives the email of account `a`, the first of that email, and a
      password its stored hash verifies, and `a` may enter. */
  ghost predicate PasswordLogin(lib: Library, accounts: seq<Account>, e: Event, a: Account) {
    && e.LogIn? && !e.disk.ReadFails?
    && lib.text.Norm(e.email) != "" && lib.text.trim(e.password) != ""
    && (exists k: nat :: FirstWithEmail(lib, accounts, e.email, k) && accounts[k] == a)
    && lib.verify(a.passwordHash, lib.text.trim(e.password))
    && (a.isAdmin || a.isApproved)
  }

  lemma LoginResultIff(lib: Library, accounts: seq<Account>, e: Event, a: Account)
    requires Lawful(lib) && e.LogIn?
    ensures LoginResult(lib, accounts, e) == Success(a) <==> PasswordLogin(lib, accounts, e, a)
  {
    var trimmed := lib.text.trim(e.email);
    LoginSucceedsIff(lib, accounts, trimmed, e.password, e.disk, a);
    assert lib.text.Norm(trimmed) == lib.text.Norm(e.email);
    forall k: nat ensures FirstWithEmail(lib, accounts, trimmed, k) <==> FirstWithEmail(lib, accounts, e.email, k) {
    }
  }

  /** Entry k is such a login as account `id`, and the token given out was `token`. */
  ghost predicate LoggedIn(lib: Library, start: seq<Account>, log: seq<Entry>, k: nat, token: string, id: string)
    requires k < |log|
  {
    var e := log[k].event;
    e.LogIn? && e.token == token &&
    exists a: Account :: a.id == id && PasswordLogin(lib, AccountsAfter(lib, start, log[..k]), e, a)
  }

  /** Entry j logs the token out, or gives it out anew. */
  ghost predicate Supersedes(lib: Library, start: seq<Account>, log: seq<Entry>, j: nat, token: string)
    requires j < |log|
  {
    || (log[j].event.LogOut? && log[j].event.cookie == Some(token) && lib.text.trim(token) != "")
    || exists id :: LoggedIn(lib, start, log, j, token, id)
  }

  /** Entry k is the last login with the token, as account `id`, and nothing ended it. */
  ghost predicate LastLogin(lib: Library, start: seq<Account>, log: seq<Entry>, k: nat, token: string, id: string) {
    && k < |log| && LoggedIn(lib, start, log, k, token, id)
    && forall j | k < j < |log| :: !Supersedes(lib, start, log, j, token)
  }

  lemma LastEntryCall(lib: Library, start: seq<Account>, log: seq<Entry>, token: string)
    requires Lawful(lib) && log != []
    ensures
      var n := |log| - 1;
      var call := SessionPart(lib, AccountsAfter(lib, start, log[..n]), log[n].event);
      && (forall id :: call == Create(id, token) <==> LoggedIn(lib, start, log, n, token, id))
      && ((call.Delete? && call.token == token) <==>
            log[n].event.LogOut? && log[n].event.cookie == Some(token) && lib.text.trim(token) != "")
      && ((call.Create? && call.token == token) || (call.Delete? && call.token == token)
          <==> Supersedes(lib, start, log, n, token))
  {
    var n := |log| - 1;
    var e := log[n].event;
    var accounts := AccountsAfter(lib, start, log[..n]);
    var call := SessionPart(lib, accounts, e);
    if e.LogIn? {
      forall a ensures LoginResult(lib, accounts, e) == Success(a) <==> PasswordLogin(lib, accounts, e, a) {
        LoginResultIff(lib, accounts, e, a);
      }
    }
    forall id ensures call == Create(id, token) <==> LoggedIn(lib, start, log, n, token, id) {
      if call == Create(id, token) {
        assert PasswordLogin(lib, accounts, e, LoginResult(lib, accounts, e).value);
      }
    }
    if call.Create? && call.token == token {
      assert LoggedIn(lib, start, log, n, token, call.accountId);
    }
  }

  lemma PrefixLogins(lib: Library, start: seq<Account>, log: seq<Entry>, n: nat, j: nat, token: string, id: string)
    requires j < n <= |log|
    ensures LoggedIn(lib, start, log[..n], j, token, id) <==> LoggedIn(lib, start, log, j, token, id)
  {
    assert log[..n][..j] == log[..j];
  }

  lemma PrefixSupersedes(lib: Library, start: seq<Account>, log: seq<Entry>, n: nat, j: nat, token: string)
    requires j < n <= |log|
    ensures Supersedes(lib, start, log[..n], j, token) <==> Supersedes(lib, start, log, j, token)
  {
    forall id ensures LoggedIn(lib, start, log[..n], j, token, id) <==> LoggedIn(lib, start, log, j, token, id) {
      PrefixLogins(lib, start, log, n, j, token, id);
    }
  }

  lemma PrefixLastLogin(lib: Library, start: seq<Account>, log: seq<Entry>, k: nat, token: string, id: string)
    requires log != [] && k < |log| - 1 && !Supersedes(lib, start, log, |log| - 1, token)
    ensures LastLogin(lib, start, log[..|log| - 1], k, token, id) <==> LastLogin(lib, start, log, k, token, id)
  {
    var n := |log| - 1;
    PrefixLogins(lib, start, log, n, k, token, id);
    forall j | k < j < n
      ensures Supersedes(lib, start, log[..n], j, token) <==> Supersedes(lib, start, log, j, token)
    {
      PrefixSupersedes(lib, start, log, n, j, token);
    }
  }

  ghost predicate FromLogin(lib: Library, ttl: int, start: seq<Account>, log: seq<Entry>, token: string, id: string,
                            expiry: int) {
    exists k: nat :: LastLogin(lib, start, log, k, token, id) && expiry == log[k].now + ttl
  }

  lemma SupersedingLogin(lib: Library, ttl: int, start: seq<Account>, log: seq<Entry>, token: string, id: string,
                         expiry: int)
    requires log != [] && Supersedes(lib, start, log, |log| - 1, token)
    ensures FromLogin(lib, ttl, start, log, token, id, expiry)
       <==> LoggedIn(lib, start, log, |log| - 1, token, id) && expiry == log[|log| - 1].now + ttl
  {
    var n := |log| - 1;
    forall k: nat | LastLogin(lib, start, log, k, token, id) ensures k == n {
    }
    if LoggedIn(lib, start, log, n, token, id) {
      assert LastLogin(lib, start, log, n, token, id);
    }
  }

  lemma CarriedLogin(lib: Library, ttl: int, start: seq<Account>, log: seq<Entry>, token: string, id: string,
                     expiry: int)
    requires log != [] && !Supersedes(lib, start, log, |log| - 1, token)
    ensures FromLogin(lib, ttl, start, log, token, id, expiry)
       <==> FromLogin(lib, ttl, start, log[..|log| - 1], token, id, expiry)
  {
    var n := |log| - 1;
    if FromLogin(lib, ttl, start, log, token, id, expiry) {
      var k: nat :| LastLogin(lib, start, log, k, token, id) && expiry == log[k].now + ttl;
      assert k != n;
      PrefixLastLogin(lib, start, log, k, token, id);
      assert log[..n][k] == log[k];
    }
    if FromLogin(lib, ttl, start, log[..n], token, id, expiry) {
      var k: nat :| LastLogin(lib, start, log[..n], k, token, id) && expiry == log[..n][k].now + ttl;
      PrefixLastLogin(lib, start, log, k, token, id);
      assert log[..n][k] == log[k];
    }
  }

  lemma LastSessionByCall(lib: Library, ttl: int, start: seq<Account>, log: seq<Entry>, token: string)
    requires log != []
    ensures
      var n := |log| - 1;
      var call := SessionPart(lib, AccountsAfter(lib, start, log[..n]), log[n].event);
      LastSession(ttl, SessionLog(lib, start, log), token)
      == if call.Create? && call.token == token then Some(Session(call.accountId, log[n].now + ttl))
         else if call.Delete? && call.token == token then None
         else LastSession(ttl, SessionLog(lib, start, log[..n]), token)
  {
    var t := SessionLog(lib, start, log);
    assert t[..|log| - 1] == SessionLog(lib, start, log[..|log| - 1]);
  }

  /** Entry `n` asks the sessions to create or delete the token. */
  predicate Touches(lib: Library, start: seq<Account>, log: seq<Entry>, n: nat, token: string)
    requires n < |log|
  {
    var call := SessionPart(lib, AccountsAfter(lib, start, log[..n]), log[n].event);
    (call.Create? || call.Delete?) && call.token == token
  }

  predicate Creates(lib: Library, start: seq<Account>, log: seq<Entry>, n: nat, token: string, id: string)
    requires n < |log|
  {
    SessionPart(lib, AccountsAfter(lib, start, log[..n]), log[n].event) == Create(id, token)
  }

  lemma LastSessionUnfolds(lib: Library, ttl: int, start: seq<Account>, log: seq<Entry>, token: string, id: string,
                           expiry: int)
    requires log != []
    ensures
      var n := |log| - 1;
      var last := LastSession(ttl, SessionLog(lib, start, log), token);
      if Touches(lib, start, log, n, token) then
        last == Some(Session(id, expiry)) <==> Creates(lib, start, log, n, token, id) && expiry == log[n].now + ttl
      else last == LastSession(ttl, SessionLog(lib, start, log[..n]), token)
  {
    LastSessionByCall(lib, ttl, start, log, token);
  }

  lemma TouchesIsSupersedes(lib: Library, start: seq<Account>, log: seq<Entry>, token: string, id: string)
    requires Lawful(lib) && log != []
    ensures Touches(lib, start, log, |log| - 1, token) <==> Supersedes(lib, start, log, |log| - 1, token)
    ensures Creates(lib, start, log, |log| - 1, token, id) <==> LoggedIn(lib, start, log, |log| - 1, token, id)
  {
    LastEntryCall(lib, start, log, token);
  }

  /** The last session of a token is that of its last login, unless it was logged out. */
  lemma {:induction false} LastSessionIff(lib: Library, ttl: int, start: seq<Account>, log: seq<Entry>, token: string,
                                          id: string, expiry: int)
    requires Lawful(lib)
    ensures LastSession(ttl, SessionLog(lib, start, log), token) == Some(Session(id, expiry))
       <==> FromLogin(lib, ttl, start, log, token, id, expiry)
  {
    if log != [] {
      LastSessionUnfolds(lib, ttl, start, log, token, id, expiry);
      TouchesIsSupersedes(lib, start, log, token, id);
      if Supersedes(lib, start, log, |log| - 1, token) {
        SupersedingLogin(lib, ttl, start, log, token, id, expiry);
      } else {
        CarriedLogin(lib, ttl, start, log, token, id, expiry);
        LastSessionIff(lib, ttl, start, log[..|log| - 1], token, id, expiry);
      }
    }
  }

  /** SESSIONS ARE LOGINS. The history gives a cookie a live session of an account exactly
      when its token was last given out for a login with that account's email and a password
      its stored hash verified, was not logged out since, and is not past its lifetime. */
  lemma SignedInIff(lib: Library, ttl: int, start: seq<Account>, log: seq<Entry>, cookie: Option<string>, id: string,
                    now: int)
    requires Lawful(lib)
    ensures SignedIn(lib, ttl, start, log, cookie, id, now) <==>
              && cookie.Some? && lib.text.trim(cookie.value) != ""
              && exists k: nat :: LastLogin(lib, start, log, k, cookie.value, id) && now <= log[k].now + ttl
  {
    if cookie.Some? {
      var last := LastSession(ttl, SessionLog(lib, start, log), cookie.value);
      if last.Some? {
        LastSessionIff(lib, ttl, start, log, cookie.value, last.value.accountId, last.value.expiresAt);
      }
      forall k: nat | LastLogin(lib, start, log, k, cookie.value, id)
        ensures last == Some(Session(id, log[k].now + ttl))
      {
        LastSessionIff(lib, ttl, start, log, cookie.value, id, log[k].now + ttl);
      }
    }
  }

  /** EVICTION: after a visit the program keeps the visitor's session only if it is still live. */
  lemma VisitEvicts(lib: Library, ttl: int, start: seq<Account>, log: seq<Entry>, token: string, path: string,
                    disk: Disk, now: int)
    requires lib.text.trim(token) != ""
    ensures
      var before := SessionsAfter(lib, ttl, start, log);
      var after := SessionsAfter(lib, ttl, start, log + [Entry(now, Visit(Some(token), path, disk))]);
      && (token in after <==> token in before && now <= before[token].expiresAt)
      && (forall other | other != token ::
            (other in after <==> other in before) && (other in before ==> after[other] == before[other]))
  {
    HistoryGrows(lib, ttl, start, log, Entry(now, Visit(Some(token), path, disk)));
  }

  // ---- what a visitor is shown ---------------------------------------------------------------

  /** VERDICTS, for every visitor of every sequential history: without a usable cookie the login
      page; with one, but without a live session, the login page and the cookie dropped; else
      what the account's marks say, and the page only under the account's own name. */
  lemma VerdictIs(lib: Library, ttl: int, start: seq<Account>, log: seq<Entry>,
                  cookie: Option<string>, path: string, disk: Disk, now: int, id: string)
    requires Lawful(lib) && AccountsOk(lib, start) && ClockRuns(log, now)
    ensures
      var v := Decide(lib, AccountsAfter(lib, start, log), SessionsAfter(lib, ttl, start, log), cookie, path, disk,
                      now);
      var admin := Has(start, id, Admin);
      && (cookie.None? || lib.text.trim(cookie.value) == "" ==> v == ToLogin(false))
      && (cookie.Some? && lib.text.trim(cookie.value) != ""
          && (forall i :: !SignedIn(lib, ttl, start, log, cookie, i, now)) ==>
            v == ToLogin(true))
      && (SignedIn(lib, ttl, start, log, cookie, id, now) ==>
            if disk.ReadFails? || !(admin || MarkByHistory(lib, start, log, id, Set(Approval))) then v == ToLogin(true)
            else if MarkByHistory(lib, start, log, id, Set(MustReset)) && path != "/change-password" then
              v == ToChangePassword
            else
              && v.Admit? && v.accountId == id && v.isAdmin == admin
              && exists a :: a in AccountsAfter(lib, start, log) && a.id == id && a.name == v.name)
  {
    if cookie.Some? {
      LookupFollowsHistory(ttl, SessionLog(lib, start, log), cookie.value, now);
      var last := LastSession(ttl, SessionLog(lib, start, log), cookie.value);
      if last.Some? && lib.text.trim(cookie.value) != "" && now <= last.value.expiresAt {
        assert SignedIn(lib, ttl, start, log, cookie, last.value.accountId, now);
      }
    }
    MarksOfFound(lib, start, log, id);
  }

  /** The marks of the account found under an ID are those of the history. */
  lemma MarksOfFound(lib: Library, start: seq<Account>, log: seq<Entry>, id: string)
    requires Lawful(lib) && AccountsOk(lib, start)
    ensures
      var found := Find(AccountsAfter(lib, start, log), AccountKey, id);
      && (found.Some? ==>
            && found.value.isAdmin == Has(start, id, Admin)
            && found.value.isApproved == MarkByHistory(lib, start, log, id, Set(Approval))
            && found.value.mustResetPassword == MarkByHistory(lib, start, log, id, Set(MustReset)))
      && (found.None? ==> !Has(start, id, Admin) && !MarkByHistory(lib, start, log, id, Set(Approval)))
  {
    var accounts := AccountsAfter(lib, start, log);
    MarksFollowHistory(lib, start, log, id, Admin);
    MarksFollowHistory(lib, start, log, id, Set(Approval));
    MarksFollowHistory(lib, start, log, id, Set(MustReset));
    AdminsAreFromTheStart(lib, start, log, id);
    HasIsFound(accounts, id, Admin);
    HasIsFound(accounts, id, Set(Approval));
    HasIsFound(accounts, id, Set(MustReset));
  }

  // ---- passwords ------------------------------------------------------------------------------------

  /** The account with that ID has that hash on file. */
  ghost predicate HashOnFile(accounts: seq<Account>, id: string, hash: string) {
    exists i :: 0 <= i < |accounts| && accounts[i].id == id && accounts[i].passwordHash == hash
  }

  /** A reset or change of the account's password that succeeds. */
  ghost predicate SetsPassword(lib: Library, accounts: seq<Account>, e: Event, id: string) {
    && e.Alter? && e.id == id && !e.edit.Approve?
    && AccountEffect(lib, accounts, e).1 == Closed(None)
  }

  lemma HashKept(lib: Library, accounts: seq<Account>, e: Event, id: string, hash: string)
    requires Lawful(lib) && AccountsOk(lib, accounts) && HashOnFile(accounts, id, hash)
    requires !SetsPassword(lib, accounts, e, id)
    ensures HashOnFile(AccountEffect(lib, accounts, e).0, id, hash)
  {
    var i :| 0 <= i < |accounts| && accounts[i].id == id && accounts[i].passwordHash == hash;
    var after := AccountEffect(lib, accounts, e).0;
    if e.SignUp? {
      RegistrationIs(lib, accounts, e.name, e.email, e.password, e.isWarehouseWorker, e.newId, e.stamp, e.e1, e.e2);
      assert after[i].id == id && after[i].passwordHash == hash;
    } else if e.Alter? {
      EditIs(lib, accounts, e.id, e.edit, e.e1, e.e2);
      var k := IndexBy(accounts, AccountKey, e.id);
      if k < |accounts| {
        SameIdSamePlace(accounts, i, k);
      }
      assert after[i].id == id && after[i].passwordHash == hash;
    }
  }

  lemma {:induction false} HashStays(lib: Library, start: seq<Account>, log: seq<Entry>, k: nat, id: string,
                                     hash: string)
    requires Lawful(lib) && AccountsOk(lib, start) && k <= |log|
    requires HashOnFile(AccountsAfter(lib, start, log[..k]), id, hash)
    requires forall j | k <= j < |log| :: !SetsPassword(lib, AccountsAfter(lib, start, log[..j]), log[j].event, id)
    ensures HashOnFile(AccountsAfter(lib, start, log), id, hash)
    decreases |log|
  {
    if k == |log| {
      assert log[..k] == log;
    } else {
      var before := log[..|log| - 1];
      assert before[..k] == log[..k];
      assert forall j | k <= j < |before| :: before[..j] == log[..j];
      HashStays(lib, start, before, k, id, hash);
      MarksFollowHistory(lib, start, before, id, Admin);
      HashKept(lib, AccountsAfter(lib, start, before), log[|log| - 1].event, id, hash);
    }
  }

  /** Entry k reset or changed the password of account `id` to `password`, and nothing has set
      it since. */
  ghost predicate LastPassword(lib: Library, start: seq<Account>, log: seq<Entry>, k: nat, id: string,
                               password: string) {
    && k < |log| && SetsPassword(lib, AccountsAfter(lib, start, log[..k]), log[k].event, id)
    && password == lib.text.trim(log[k].event.edit.newPassword)
    && forall j | k < j < |log| :: !SetsPassword(lib, AccountsAfter(lib, start, log[..j]), log[j].event, id)
  }

  lemma LastHashOnFile(lib: Library, start: seq<Account>, log: seq<Entry>, k: nat, id: string, password: string)
    requires Lawful(lib) && AccountsOk(lib, start) && LastPassword(lib, start, log, k, id, password)
    ensures log[k].event.e1.hash(password).Some?
    ensures HashOnFile(AccountsAfter(lib, start, log), id, log[k].event.e1.hash(password).value)
  {
    var e := log[k].event;
    var accounts := AccountsAfter(lib, start, log[..k]);
    MarksFollowHistory(lib, start, log[..k], id, Admin);
    EditIs(lib, accounts, e.id, e.edit, e.e1, e.e2);
    var i := IndexBy(accounts, AccountKey, e.id);
    var after := AccountEffect(lib, accounts, e).0;
    assert after[i].id == id && after[i].passwordHash == e.e1.hash(password).value;
    assert log[..k + 1][..k] == log[..k] && log[..k + 1][k] == log[k];
    HashStays(lib, start, log, k + 1, id, e.e1.hash(password).value);
  }

  /** PASSWORDS. After a reset or a change of an account's password, and until the next one, a
      login as that account succeeds only with a password that the new hash verifies; and if
      the hasher's hashes verify what they were made of, the new password does let in whoever
      may enter. */
  lemma LastPasswordDecides(lib: Library, start: seq<Account>, log: seq<Entry>, k: nat, id: string, password: string,
                            e: Event, a: Account)
    requires Lawful(lib) && AccountsOk(lib, start) && LastPassword(lib, start, log, k, id, password)
    requires e.LogIn? && a in AccountsAfter(lib, start, log) && a.id == id
    ensures
      var hash := log[k].event.e1.hash(password);
      && hash.Some?
      && (LoginResult(lib, AccountsAfter(lib, start, log), e) == Success(a) ==>
          lib.verify(hash.value, lib.text.trim(e.password)))
      && (lib.verify(hash.value, password) && lib.text.Norm(e.email) == lib.text.Norm(a.email)
          && lib.text.Norm(a.email) != ""
          && lib.text.trim(e.password) == password && password != "" && e.disk.Works? && (a.isAdmin || a.isApproved) ==>
            LoginResult(lib, AccountsAfter(lib, start, log), e) == Success(a))
  {
    var accounts := AccountsAfter(lib, start, log);
    MarksFollowHistory(lib, start, log, id, Admin);
    LastHashOnFile(lib, start, log, k, id, password);
    var hash := log[k].event.e1.hash(password).value;
    var i :| 0 <= i < |accounts| && accounts[i].id == id && accounts[i].passwordHash == hash;
    var j :| 0 <= j < |accounts| && accounts[j] == a;
    SameIdSamePlace(accounts, i, j);
    LoginResultIff(lib, accounts, e, a);
    if lib.text.Norm(e.email) == lib.text.Norm(a.email) {
      forall m | 0 <= m < j ensures lib.text.Norm(accounts[m].email) != lib.text.Norm(e.email) {
        assert EmailKey(lib)(accounts[m]) != EmailKey(lib)(accounts[j]);
      }
      assert FirstWithEmail(lib, accounts, e.email, j);
    }
  }
}
