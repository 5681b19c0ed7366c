/** `RequireAuth`: who is let through, told from the history alone. */
module Gate {
  import opened Models
  import opened Sums
  import opened Integrity
  import opened Accounts
  import opened AuthService
  import opened Sessions

  const CHANGE_PASSWORD := "/change-password"

  datatype Verdict =
    | ToLogin(dropCookie: bool)
    | ToChangePassword
    | Admit(accountId: string, isAdmin: bool, name: string)

  // ---- the decision ------------------------------------------------------------------

  function Decide(lib: Library, accounts: seq<Account>, sessions: map<string, Session>,
                  cookie: Option<string>, path: string, disk: Disk, now: int): Verdict {
    if cookie.None? || lib.text.trim(cookie.value) == "" then ToLogin(false) else
    var id := LookUp(sessions, cookie.value, now).1;
    if id.None? || disk.ReadFails? then ToLogin(true) else
    var found := Find(accounts, AccountKey, id.value);
    if found.None? || (!found.value.isAdmin && !found.value.isApproved) then ToLogin(true)
    else if found.value.mustResetPassword && path != CHANGE_PASSWORD then ToChangePassword
    else Admit(found.value.id, found.value.isAdmin, found.value.name)
  }

  method RequireAuth(repo: AccountsRepository, service: SessionService,
                     cookie: Option<string>, path: string, disk: Disk, now: int) returns (v: Verdict)
    modifies service`sessions
    ensures v == Decide(repo.lib, repo.Rows(), old(service.sessions), cookie, path, repo.Seen(disk), now)
    ensures service.sessions == Serve(old(service.sessions), service.ttl, Timed(now, VisitCall(repo.lib, cookie)))
  {
    if cookie.None? || repo.lib.text.trim(cookie.value) == "" {
      return ToLogin(false);
    }
    var accountId := service.GetAccountID(cookie.value, now);
    if accountId.None? {
      return ToLogin(true);
    }
    var found := repo.GetByID(accountId.value, disk);
    if found.Failure? || found.value.None? {
      return ToLogin(true);
    }
    var account := found.value.value;
    if !account.isAdmin && !account.isApproved {
      return ToLogin(true);
    }
    if account.mustResetPassword && path != CHANGE_PASSWORD {
      return ToChangePassword;
    }
    v := Admit(account.id, account.isAdmin, account.name);
  }

  // ---- histories -----------------------------------------------------------------------

  /** One request served to its end before the next: a login or logout, a guarded page,
      a registration, or an edit of an account. */
  datatype Event =
    | LogIn(email: string, password: string, disk: Disk, token: string)
    | LogOut(cookie: Option<string>)
    | Visit(cookie: Option<string>, path: string, disk: Disk)
    | SignUp(newId: string, name: string, email: string, password: string, isWarehouseWorker: bool, stamp: string,
             e1: Surroundings, e2: Surroundings)
    | Alter(id: string, edit: Edit, e1: Surroundings, e2: Surroundings)

  datatype Entry = Entry(now: int, event: Event)

  function VisitCall(lib: Library, cookie: Option<string>): SessionCall {
    if cookie.None? || lib.text.trim(cookie.value) == "" then Other else GetAccountID(cookie.value)
  }

  function LoginResult(lib: Library, accounts: seq<Account>, e: Event): Result<Account>
    requires e.LogIn?
  {
    Authenticated(lib, accounts, lib.text.trim(e.email), e.password, e.disk)
  }

  /** What an event asks of the sessions. */
  function SessionPart(lib: Library, accounts: seq<Account>, e: Event): SessionCall {
    match e
    case LogIn(_, _, _, token) =>
      var r := LoginResult(lib, accounts, e);
      if r.Success? then Create(r.value.id, token) else Other
    case LogOut(cookie) => if cookie.None? || lib.text.trim(cookie.value) == "" then Other else Delete(cookie.value)
    case Visit(cookie, _, _) => VisitCall(lib, cookie)
    case _ => Other
  }

  /** What an event makes of the accounts, and the result of its call. */
  function AccountEffect(lib: Library, accounts: seq<Account>, e: Event): (seq<Account>, AuthCall) {
    match e
    case SignUp(newId, name, email, password, isWarehouseWorker, stamp, e1, e2) =>
      Registered(lib, accounts, name, email, password, isWarehouseWorker, newId, stamp, e1, e2)
    case Alter(id, edit, e1, e2) => Altered(lib, accounts, id, edit, e1, e2)
    case _ => (accounts, Closed(None))
  }

  function AccountsAfter(lib: Library, start: seq<Account>, log: seq<Entry>): seq<Account> {
    if log == [] then start
    else AccountEffect(lib, AccountsAfter(lib, start, log[..|log| - 1]), log[|log| - 1].event).0
  }

  /** The session calls of a history. */
  function SessionLog(lib: Library, start: seq<Account>, log: seq<Entry>): (t: seq<Timed>)
    ensures |t| == |log|
    ensures forall i | 0 <= i < |log| :: t[i].now == log[i].now
  {
    if log == [] then [] else
    var before, last := log[..|log| - 1], log[|log| - 1];
    SessionLog(lib, start, before) + [Timed(last.now, SessionPart(lib, AccountsAfter(lib, start, before), last.event))]
  }

  function SessionsAfter(lib: Library, ttl: int, start: seq<Account>, log: seq<Entry>): map<string, Session> {
    Replay(ttl, SessionLog(lib, start, log))
  }

  /** The clock does not run backwards, and reads `now` afterwards. */
  ghost predicate ClockRuns(log: seq<Entry>, now: int) {
    && (forall i, j | 0 <= i < j < |log| :: log[i].now <= log[j].now)
    && (forall i | 0 <= i < |log| :: log[i].now <= now)
  }

  // ---- the code follows the history ------------------------------------------------------

  lemma HistoryGrows(lib: Library, ttl: int, start: seq<Account>, log: seq<Entry>, e: Entry)
    ensures
      var accounts := AccountsAfter(lib, start, log);
      && AccountsAfter(lib, start, log + [e]) == AccountEffect(lib, accounts, e.event).0
      && SessionsAfter(lib, ttl, start, log + [e])
         == Serve(SessionsAfter(lib, ttl, start, log), ttl, Timed(e.now, SessionPart(lib, accounts, e.event)))
  {
    assert (log + [e])[..|log|] == log;
    var t := SessionLog(lib, start, log + [e]);
    assert t[..|log|] == SessionLog(lib, start, log);
  }

  /** An event as the accounts file meets it: while that does not parse, reads fail. */
  ghost function AsMet(repo: AccountsRepository, e: Entry): Entry
    reads repo
  {
    match e.event
    case LogIn(email, password, disk, token) => Entry(e.now, LogIn(email, password, repo.Seen(disk), token))
    case LogOut(_) => e
    case Visit(cookie, path, disk) => Entry(e.now, Visit(cookie, path, repo.Seen(disk)))
    case SignUp(newId, name, email, password, isWarehouseWorker, stamp, e1, e2) =>
      Entry(e.now, SignUp(newId, name, email, password, isWarehouseWorker, stamp, repo.Around(e1), repo.Around(e2)))
    case Alter(id, edit, e1, e2) => Entry(e.now, Alter(id, edit, repo.Around(e1), repo.Around(e2)))
  }

  class Site {
    const auth: Service
    const sessions: SessionService

    constructor (auth: Service, sessions: SessionService)
      ensures this.auth == auth && this.sessions == sessions
    {
      this.auth, this.sessions := auth, sessions;
    }

    /** The accounts on file and the sessions in memory are those of the history. */
    ghost predicate Follows(start: seq<Account>, log: seq<Entry>)
      reads auth.repo, sessions
    {
      && auth.repo.Rows() == AccountsAfter(auth.repo.lib, start, log)
      && sessions.sessions == SessionsAfter(auth.repo.lib, sessions.ttl, start, log)
    }

    method LogIn(email: string, password: string, disk: Disk, token: string, now: int)
      modifies sessions`sessions
      ensures
        var e := Event.LogIn(email, password, auth.repo.Seen(disk), token);
        sessions.sessions
        == Serve(old(sessions.sessions), sessions.ttl, Timed(now, SessionPart(auth.repo.lib, auth.repo.Rows(), e)))
    {
      var account := auth.Authenticate(auth.repo.lib.text.trim(email), password, disk);
      if account.Success? {
        var _ := sessions.Create(account.value.id, token, now);
      }
    }

    method LogOut(cookie: Option<string>)
      modifies sessions`sessions
      ensures
        var call := SessionPart(auth.repo.lib, auth.repo.Rows(), Event.LogOut(cookie));
        sessions.sessions == Serve(old(sessions.sessions), sessions.ttl, Timed(0, call))
    {
      if cookie.Some? && auth.repo.lib.text.trim(cookie.value) != "" {
        sessions.Delete(cookie.value);
      }
    }

    method Alter(id: string, edit: Edit, e1: Surroundings, e2: Surroundings)
      requires Lawful(auth.repo.lib)
      modifies auth.repo`file
      ensures
        auth.repo.Rows()
        == Altered(auth.repo.lib, old(auth.repo.Rows()), id, edit,
                   old(auth.repo.Around(e1)), old(auth.repo.Around(e2))).0
    {
      match edit
      case Approve(v) => var _ := auth.SetApproval(id, v, e1, e2);
      case Reset(newPassword) => var _ := auth.ResetPasswordByAdmin(id, newPassword, e1, e2);
      case Change(current, newPassword) => var _ := auth.ChangePassword(id, current, newPassword, e1, e2);
    }

    /** Serves one entry through the classes, which then hold what the longer history says. */
    method ServeEntry(e: Entry, ghost start: seq<Account>, ghost log: seq<Entry>) returns (v: Option<Verdict>)
      requires Lawful(auth.repo.lib) && Follows(start, log)
      modifies auth.repo`file, sessions`sessions
      ensures Follows(start, log + [old(AsMet(auth.repo, e))])
      ensures e.event.Visit? ==>
                v == Some(Decide(auth.repo.lib, AccountsAfter(auth.repo.lib, start, log),
                                 SessionsAfter(auth.repo.lib, sessions.ttl, start, log),
                                 e.event.cookie, e.event.path, old(auth.repo.Seen(e.event.disk)), e.now))
    {
      HistoryGrows(auth.repo.lib, sessions.ttl, start, log, AsMet(auth.repo, e));
      v := None;
      match e.event
      case LogIn(email, password, disk, token) => LogIn(email, password, disk, token, e.now);
      case LogOut(cookie) => LogOut(cookie);
      case Visit(cookie, path, disk) =>
        var verdict := RequireAuth(auth.repo, sessions, cookie, path, disk, e.now);
        v := Some(verdict);
      case SignUp(newId, name, email, password, isWarehouseWorker, stamp, e1, e2) =>
        var _ := auth.Register(name, email, password, isWarehouseWorker, newId, stamp, e1, e2);
      case Alter(id, edit, e1, e2) => Alter(id, edit, e1, e2);
    }
  }

  // ---- what the history says of an account ---------------------------------------------

  datatype Mark = Admin | Set(flag: Flag)

  predicate Marked(a: Account, m: Mark) {
    match m
    case Admin => a.isAdmin
    case Set(flag) => FlagOf(flag, a)
  }

  predicate Has(accounts: seq<Account>, id: string, m: Mark) {
    exists i :: 0 <= i < |accounts| && accounts[i].id == id && Marked(accounts[i], m)
  }

  /** The value an edit gives a mark, if it sets it. */
  function Target(edit: Edit, m: Mark): Option<bool> {
    match edit
    case Approve(v) => if m == Set(Approval) then Some(v) else None
    case Reset(_) => if m == Set(MustReset) then Some(true) else None
    case Change(_, _) => if m == Set(MustReset) then Some(false) else None
  }

  /** The event is an edit of account `id` that succeeds and sets the mark. */
  predicate Sets(lib: Library, accounts: seq<Account>, e: Event, id: string, m: Mark) {
    && e.Alter? && e.id == id && Target(e.edit, m).Some?
    && AccountEffect(lib, accounts, e).1 == Closed(None)
  }

  /** The value given by the last successful edit, or else the one at the start. */
  predicate MarkByHistory(lib: Library, start: seq<Account>, log: seq<Entry>, id: string, m: Mark) {
    if log == [] then Has(start, id, m) else
    var before, e := log[..|log| - 1], log[|log| - 1].event;
    if Sets(lib, AccountsAfter(lib, start, before), e, id, m) then Target(e.edit, m).value
    else MarkByHistory(lib, start, before, id, m)
  }

  ghost predicate AccountsOk(lib: Library, accounts: seq<Account>) {
    KeysDistinct(accounts, AccountKey) && KeysDistinct(accounts, EmailKey(lib))
  }

  lemma SignUpMarks(lib: Library, accounts: seq<Account>, e: Event, id: string, m: Mark)
    requires Lawful(lib) && AccountsOk(lib, accounts) && e.SignUp?
    ensures AccountsOk(lib, AccountEffect(lib, accounts, e).0)
    ensures Has(AccountEffect(lib, accounts, e).0, id, m) == Has(accounts, id, m)
  {
    if RegisterObjection(lib, e.name, e.email, e.password, e.isWarehouseWorker).Some? {
      return;
    }
    var asked := Checking(NewAccount(e.newId, lib.text.trim(e.name), lib.Norm(e.email), e.stamp),
                          lib.text.trim(e.password), false);
    var c := AuthStep(lib, accounts, asked, e.e1).1;
    if c.Adding? {
      var r := AddAccount(lib, accounts, c.account, e.e2.disk);
      if r.Success? {
        AddKeepsDistinct(lib, accounts, c.account, e.e2.disk);
        assert forall i | 0 <= i < |accounts| :: r.value[i] == Normalised(lib, accounts[i]);
        assert r.value[|accounts|] == Normalised(lib, c.account);
      }
    }
  }

  /** An edit either leaves the accounts alone and fails, or writes the edited copy over
      the one account it read. */
  lemma AlterReplaces(lib: Library, accounts: seq<Account>, e: Event) returns (k: nat, copy: Account)
    requires Lawful(lib) && AccountsOk(lib, accounts) && e.Alter?
    ensures
      var (after, c) := AccountEffect(lib, accounts, e);
      if c == Closed(None) then
        && k < |accounts| && accounts[k].id == e.id
        && Edited(lib, accounts[k], Asked(lib, e.edit), e.e1) == Writing(copy)
        && SameIdentity(lib, accounts[k], copy)
        && after == Written(lib, accounts[k := copy]) && AccountsOk(lib, after)
      else after == accounts
  {
    k, copy := IndexBy(accounts, AccountKey, e.id), DefaultAdmin("");
    var c := AuthStep(lib, accounts, Reading(e.id, Asked(lib, e.edit)), e.e1).1;
    if c.Writing? {
      copy := c.account;
      UpdateReplaces(lib, accounts, copy, k, e.e2.disk);
    }
  }

  lemma AlterMarks(lib: Library, accounts: seq<Account>, e: Event, id: string, m: Mark)
    requires Lawful(lib) && AccountsOk(lib, accounts) && e.Alter?
    ensures AccountsOk(lib, AccountEffect(lib, accounts, e).0)
    ensures Has(AccountEffect(lib, accounts, e).0, id, m)
         == if Sets(lib, accounts, e, id, m) then Target(e.edit, m).value else Has(accounts, id, m)
  {
    var k, copy := AlterReplaces(lib, accounts, e);
    if AccountEffect(lib, accounts, e).1 == Closed(None) {
      ReplacedMarks(lib, accounts, k, copy, id, m);
      EditedMark(lib, accounts[k], Asked(lib, e.edit), e.e1, m);
      if id == e.id {
        HasAt(accounts, k, m);
      }
    }
  }

  lemma EditedMark(lib: Library, a: Account, edit: Edit, e: Surroundings, m: Mark)
    ensures
      var c := Edited(lib, a, edit, e);
      c.Writing? ==> Marked(c.account, m) == if Target(edit, m).Some? then Target(edit, m).value else Marked(a, m)
  {
  }

  lemma HasAt(accounts: seq<Account>, k: nat, m: Mark)
    requires KeysDistinct(accounts, AccountKey) && k < |accounts|
    ensures Has(accounts, accounts[k].id, m) == Marked(accounts[k], m)
  {
    forall i | 0 <= i < |accounts| && accounts[i].id == accounts[k].id ensures i == k {
      SameIdSamePlace(accounts, i, k);
    }
  }

  lemma ReplacedMarks(lib: Library, accounts: seq<Account>, k: nat, copy: Account, id: string, m: Mark)
    requires KeysDistinct(accounts, AccountKey) && k < |accounts| && copy.id == accounts[k].id
    ensures Has(Written(lib, accounts[k := copy]), id, m)
         == if id == copy.id then Marked(copy, m) else Has(accounts, id, m)
  {
    var after := Written(lib, accounts[k := copy]);
    assert forall i | 0 <= i < |accounts| :: after[i] == Normalised(lib, accounts[k := copy][i]);
    if id == copy.id {
      forall i | 0 <= i < |accounts| && after[i].id == id ensures i == k {
        SameIdSamePlace(accounts, i, k);
      }
      assert after[k].id == id;
    } else if Has(accounts, id, m) {
      var i :| 0 <= i < |accounts| && accounts[i].id == id && Marked(accounts[i], m);
      assert after[i].id == id && Marked(after[i], m);
    }
  }

  /** Every mark of every account is what its last successful edit says. */
  lemma {:induction false} MarksFollowHistory(lib: Library, start: seq<Account>, log: seq<Entry>, id: string, m: Mark)
    requires Lawful(lib) && AccountsOk(lib, start)
    ensures AccountsOk(lib, AccountsAfter(lib, start, log))
    ensures Has(AccountsAfter(lib, start, log), id, m) == MarkByHistory(lib, start, log, id, m)
  {
    if log != [] {
      var before, e := log[..|log| - 1], log[|log| - 1].event;
      MarksFollowHistory(lib, start, before, id, m);
      var accounts := AccountsAfter(lib, start, before);
      if e.SignUp? {
        SignUpMarks(lib, accounts, e, id, m);
      } else if e.Alter? {
        AlterMarks(lib, accounts, e, id, m);
      }
    }
  }

  /** No edit sets the admin mark, so it is as at the start. */
  lemma {:induction false} AdminsAreFromTheStart(lib: Library, start: seq<Account>, log: seq<Entry>, id: string)
    ensures MarkByHistory(lib, start, log, id, Admin) == Has(start, id, Admin)
  {
    if log != [] {
      AdminsAreFromTheStart(lib, start, log[..|log| - 1], id);
    }
  }

  lemma HasIsFound(accounts: seq<Account>, id: string, m: Mark)
    requires KeysDistinct(accounts, AccountKey)
    ensures
      var found := Find(accounts, AccountKey, id);
      Has(accounts, id, m) == (found.Some? && Marked(found.value, m))
  {
    var k := IndexBy(accounts, AccountKey, id);
    if k < |accounts| {
      forall i | 0 <= i < |accounts| && accounts[i].id == id ensures i == k {
        SameIdSamePlace(accounts, i, k);
      }
    } else {
      FindNone(accounts, AccountKey, id);
    }
  }

  // ---- who is admitted ---------------------------------------------------------------------

  /** The history gives `cookie` a live session of account `id`. */
  predicate SignedIn(lib: Library, ttl: int, start: seq<Account>, log: seq<Entry>, cookie: Option<string>, id: string,
                     now: int) {
    && cookie.Some? && lib.text.trim(cookie.value) != "" &&
    var last := LastSession(ttl, SessionLog(lib, start, log), cookie.value);
    last.Some? && last.value.accountId == id && now <= last.value.expiresAt
  }

  /** ADMISSION. In every sequential history with a monotone clock, a page is shown to
      account `id` exactly when the cookie's token was last created for it, not deleted
      since and not expired, the account is admin from the start or approved by its last
      successful decision, and it is not under a forced reset, unless the page is the
      password form. */
  lemma AdmittedIff(lib: Library, ttl: int, start: seq<Account>, log: seq<Entry>,
                    cookie: Option<string>, path: string, disk: Disk, now: int, id: string)
    requires Lawful(lib) && AccountsOk(lib, start)
    requires ClockRuns(log, now)
    ensures
      var v := Decide(lib, AccountsAfter(lib, start, log), SessionsAfter(lib, ttl, start, log), cookie, path, disk,
                      now);
      var admin := Has(start, id, Admin);
      && (v.Admit? && v.accountId == id <==>
            && !disk.ReadFails?
            && SignedIn(lib, ttl, start, log, cookie, id, now)
            && (admin || MarkByHistory(lib, start, log, id, Set(Approval)))
            && (MarkByHistory(lib, start, log, id, Set(MustReset)) ==> path == CHANGE_PASSWORD))
      && (v.Admit? && v.accountId == id ==> v.isAdmin == admin)
  {
    if cookie.Some? {
      LookupFollowsHistory(ttl, SessionLog(lib, start, log), cookie.value, now);
    }
    var accounts := AccountsAfter(lib, start, log);
    MarksFollowHistory(lib, start, log, id, Admin);
    MarksFollowHistory(lib, start, log, id, Set(Approval));
    MarksFollowHistory(lib, start, log, id, Set(MustReset));
    AdminsAreFromTheStart(lib, start, log, id);
    HasIsFound(accounts, id, Admin);
    HasIsFound(accounts, id, Set(Approval));
    HasIsFound(accounts, id, Set(MustReset));
  }

  // ---- forced reset and revocation --------------------------------------------------------

  /** From position k on, no edit of `id` succeeds that sets the mark to the opposite of `v`. */
  ghost predicate NotUndone(lib: Library, start: seq<Account>, log: seq<Entry>, k: nat, id: string, m: Mark, v: bool) {
    forall j | k <= j < |log| ::
      Sets(lib, AccountsAfter(lib, start, log[..j]), log[j].event, id, m) ==> Target(log[j].event.edit, m) == Some(v)
  }

  lemma {:induction false} MarkStays(lib: Library, start: seq<Account>, log: seq<Entry>, k: nat, id: string, m: Mark,
                                     v: bool)
    requires k <= |log| && MarkByHistory(lib, start, log[..k], id, m) == v
    requires NotUndone(lib, start, log, k, id, m, v)
    ensures MarkByHistory(lib, start, log, id, m) == v
    decreases |log|
  {
    if k == |log| {
      assert log[..k] == log;
    } else {
      var before := log[..|log| - 1];
      assert before[..k] == log[..k];
      assert forall j | k <= j < |before| :: before[..j] == log[..j];
      MarkStays(lib, start, before, k, id, m, v);
    }
  }

  /** FORCED RESET. After an admin reset of an account, only the password form is shown
      to it until it has changed its password. REVOCATION. After approval is taken from an
      account that is not admin, no page is, until it is approved again. */
  lemma ResetAndRevocationHold(lib: Library, ttl: int, start: seq<Account>, log: seq<Entry>, k: nat,
                               cookie: Option<string>, path: string, disk: Disk, now: int)
    requires Lawful(lib) && AccountsOk(lib, start) && k < |log|
    requires ClockRuns(log, now)
    requires log[k].event.Alter?
    requires AccountEffect(lib, AccountsAfter(lib, start, log[..k]), log[k].event).1 == Closed(None)
    ensures
      var id, edit := log[k].event.id, log[k].event.edit;
      var v := Decide(lib, AccountsAfter(lib, start, log), SessionsAfter(lib, ttl, start, log), cookie, path, disk,
                      now);
      v.Admit? && v.accountId == id ==>
        && (edit.Reset? && NotUndone(lib, start, log, k + 1, id, Set(MustReset), true) ==> path == CHANGE_PASSWORD)
        && (edit == Approve(false) && NotUndone(lib, start, log, k + 1, id, Set(Approval), false) ==>
            Has(start, id, Admin))
  {
    var id, edit := log[k].event.id, log[k].event.edit;
    AdmittedIff(lib, ttl, start, log, cookie, path, disk, now, id);
    if edit.Reset? && NotUndone(lib, start, log, k + 1, id, Set(MustReset), true) {
      EditSticks(lib, start, log, k, Set(MustReset), true);
    }
    if edit == Approve(false) && NotUndone(lib, start, log, k + 1, id, Set(Approval), false) {
      EditSticks(lib, start, log, k, Set(Approval), false);
    }
  }

  /** What a successful edit set holds at the end of the history if nothing undoes it. */
  lemma EditSticks(lib: Library, start: seq<Account>, log: seq<Entry>, k: nat, m: Mark, v: bool)
    requires k < |log| && log[k].event.Alter? && Target(log[k].event.edit, m) == Some(v)
    requires AccountEffect(lib, AccountsAfter(lib, start, log[..k]), log[k].event).1 == Closed(None)
    requires NotUndone(lib, start, log, k + 1, log[k].event.id, m, v)
    ensures MarkByHistory(lib, start, log, log[k].event.id, m) == v
  {
    assert log[..k + 1][..k] == log[..k] && log[..k + 1][k] == log[k];
    MarkStays(lib, start, log, k + 1, log[k].event.id, m, v);
  }

  /** The same under interleaving, for a copy-free moment: an account under forced reset,
      with no stale copy of it waiting to be written, is shown only the password form in
      every run in which no password change of it starts reading; likewise one whose
      approval was taken is shown nothing. */
  lemma FlagsGuardInterleavedRuns(lib: Library, s: AuthState, run: seq<AuthAction>, i: nat, flag: Flag,
                                  sessions: map<string, Session>, cookie: Option<string>, path: string, disk: Disk,
                                  now: int)
    requires Lawful(lib) && AuthInv(lib, s) && i < |s.accounts|
    requires FlagOf(flag, s.accounts[i]) == flag.MustReset?
    requires CopiesAgree(s, s.accounts[i].id, flag, flag.MustReset?)
    requires NoOpposingRead(lib, s, run, s.accounts[i].id, flag, flag.MustReset?)
    ensures
      var v := Decide(lib, AuthRun(lib, s, run).accounts, sessions, cookie, path, disk, now);
      v.Admit? && v.accountId == s.accounts[i].id ==>
          if flag.MustReset? then path == CHANGE_PASSWORD else s.accounts[i].isAdmin
  {
    FlagHolds(lib, s, run, i, flag, flag.MustReset?);
    IdentityNeverChanges(lib, s, run);
    var end := AuthRun(lib, s, run).accounts;
    assert SameIdentity(lib, s.accounts[i], end[i]);
    FindUnique(end, AccountKey, i);
  }

  /** Whoever passes the admin pages' extra test is the default admin, in every run. */
  lemma AdminPagesAreForTheDefaultAdmin(lib: Library, s: AuthState, run: seq<AuthAction>,
                                        sessions: map<string, Session>, cookie: Option<string>, path: string,
                                        disk: Disk, now: int)
    requires Lawful(lib) && AuthInv(lib, s) && AdminsAreDefault(lib, s.accounts)
    ensures
      var v := Decide(lib, AuthRun(lib, s, run).accounts, sessions, cookie, path, disk, now);
      v.Admit? && v.isAdmin ==> v.accountId == ADMIN_ID
  {
    OnlyAdminIsDefault(lib, s, run);
    var end := AuthRun(lib, s, run).accounts;
    if cookie.Some? {
      var id := LookUp(sessions, cookie.value, now).1;
      if id.Some? {
        var found := Find(end, AccountKey, id.value);
        if found.Some? {
          var j :| 0 <= j < |end| && end[j] == found.value;
          assert OnlyDefaultAdmin(lib, end[j]);
        }
      }
    }
  }
}
