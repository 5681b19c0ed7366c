/** Accounts under unlocked read-modify-write.

    `SetApproval`, `ResetPasswordByAdmin` and `ChangePassword` read an account in one
    locked call and write it back in another; registration checks the email in one and
    adds in another. A run is any interleaving of these calls. */
module Accounts {
  import opened Models
  import opened Texts
  import opened Sums
  import opened Integrity

  /** The text functions and the password check. */
  datatype Library = Library(text: Text, verify: (string, string) -> bool) {
    function Norm(s: string): string { text.Norm(s) }
  }

  ghost predicate Lawful(lib: Library) { TextLaws(lib.text) }

  const AccountKey: Account -> string := (a: Account) => a.id

  function EmailKey(lib: Library): Account -> string {
    (a: Account) => lib.Norm(a.email)
  }

  const ADMIN_ID := "ACC-ADMIN"
  const ADMIN_EMAIL := "admin@ppe.local"
  const ADMIN_PASSWORD := "admin"

  // ---- the repository ---------------------------------------------------------------

  /** Writing the file normalises every email. */
  function Normalised(lib: Library, a: Account): Account { a.(email := lib.Norm(a.email)) }

  function Written(lib: Library, accounts: seq<Account>): (w: seq<Account>)
    ensures |w| == |accounts|
  {
    seq(|accounts|, i requires 0 <= i < |accounts| => Normalised(lib, accounts[i]))
  }

  /** The first reason, in file order, not to add an account. */
  function Clash(lib: Library, accounts: seq<Account>, account: Account): Option<Error> {
    if accounts == [] then None
    else if accounts[0].id == account.id then Some(DuplicateId)
    else if lib.Norm(accounts[0].email) == lib.Norm(account.email) then Some(EmailTaken)
    else Clash(lib, accounts[1..], account)
  }

  function AddAccount(lib: Library, accounts: seq<Account>, account: Account, disk: Disk): Result<seq<Account>> {
    if disk.ReadFails? then Failure(StorageFailed)
    else if Clash(lib, accounts, account).Some? then Failure(Clash(lib, accounts, account).value)
    else if disk.WriteFails? then Failure(StorageFailed)
    else Success(Written(lib, accounts + [account]))
  }

  /** Another account holds the email. */
  predicate EmailElsewhere(lib: Library, accounts: seq<Account>, account: Account) {
    exists i :: 0 <= i < |accounts| && accounts[i].id != account.id
        && lib.Norm(accounts[i].email) == lib.Norm(account.email)
  }

  function Replaced(accounts: seq<Account>, account: Account): (w: seq<Account>)
    ensures |w| == |accounts|
  {
    seq(|accounts|, i requires 0 <= i < |accounts| => if accounts[i].id == account.id then account else accounts[i])
  }

  function UpdateAccount(lib: Library, accounts: seq<Account>, account: Account, disk: Disk): Result<seq<Account>> {
    if disk.ReadFails? then Failure(StorageFailed)
    else if EmailElsewhere(lib, accounts, account) then Failure(EmailTaken)
    else if Find(accounts, AccountKey, account.id).None? then Failure(AccountNotFound)
    else if disk.WriteFails? then Failure(StorageFailed)
    else Success(Written(lib, Replaced(accounts, account)))
  }

  // ---- calls --------------------------------------------------------------------------

  datatype Edit = Approve(approved: bool) | Reset(newPassword: string) | Change(current: string, newPassword: string)

  /** One repository call's surroundings: the disk, the hash the hasher would make of a
      password (if it succeeds; it is salted, so every call has its own) and the time. */
  datatype Surroundings = Surroundings(disk: Disk, hash: string -> Option<string>, now: string)

  datatype AuthCall =
    | Checking(account: Account, password: string, byDefault: bool)
    | Adding(account: Account)
    | Reading(id: string, edit: Edit)
    | Writing(account: Account)
    | Closed(error: Option<Error>)

  /** The account as read, with the edit applied. */
  function Edited(lib: Library, a: Account, edit: Edit, e: Surroundings): AuthCall {
    match edit
    case Approve(v) => Writing(a.(isApproved := v, updatedAt := e.now))
    case Reset(password) =>
      if e.hash(password).None? then Closed(Some(HashFailed))
      else Writing(a.(passwordHash := e.hash(password).value, mustResetPassword := true, updatedAt := e.now))
    case Change(current, password) =>
      if !lib.verify(a.passwordHash, current) then Closed(Some(WrongPassword))
      else if e.hash(password).None? then Closed(Some(HashFailed))
      else Writing(a.(passwordHash := e.hash(password).value, mustResetPassword := false, updatedAt := e.now))
  }

  function AuthStep(lib: Library, accounts: seq<Account>, c: AuthCall, e: Surroundings): (seq<Account>, AuthCall) {
    match c
    case Checking(a, password, byDefault) =>
      (accounts,
       if e.disk.ReadFails? then Closed(Some(StorageFailed))
       else if Find(accounts, EmailKey(lib), lib.Norm(a.email)).Some? then
         Closed(if byDefault then None else Some(EmailTaken))
       else if e.hash(password).None? then Closed(Some(HashFailed))
       else Adding(a.(passwordHash := e.hash(password).value)))
    case Adding(a) =>
      var r := AddAccount(lib, accounts, a, e.disk);
      if r.Success? then (r.value, Closed(None)) else (accounts, Closed(Some(r.error)))
    case Reading(id, edit) =>
      (accounts,
       if e.disk.ReadFails? then Closed(Some(StorageFailed)) else
       var found := Find(accounts, AccountKey, id);
       if found.None? then Closed(Some(AccountNotFound)) else Edited(lib, found.value, edit, e))
    case Writing(a) =>
      var r := UpdateAccount(lib, accounts, a, e.disk);
      if r.Success? then (r.value, Closed(None)) else (accounts, Closed(Some(r.error)))
    case Closed(_) => (accounts, c)
  }

  /** A registration that passed its argument tests; the email is already normalised. */
  function NewAccount(id: string, name: string, email: string, now: string): Account {
    Account(id, name, email, "", true, false, false, false, now, now)
  }

  function DefaultAdmin(now: string): Account {
    Account(ADMIN_ID, "Administrator", ADMIN_EMAIL, "", true, true, true, false, now, now)
  }

  datatype AuthState = AuthState(accounts: seq<Account>, calls: seq<AuthCall>)

  datatype AuthAction =
    | BeginRegister(newId: string, name: string, email: string, password: string, now: string)
    | BeginDefaultAdmin(now: string)
    | BeginEdit(id: string, edit: Edit)
    | Move(call: nat, around: Surroundings)

  function AuthNext(lib: Library, s: AuthState, a: AuthAction): AuthState {
    match a
    case BeginRegister(newId, name, email, password, now) =>
      s.(calls := s.calls + [Checking(NewAccount(newId, name, lib.Norm(email), now), password, false)])
    case BeginDefaultAdmin(now) => s.(calls := s.calls + [Checking(DefaultAdmin(now), ADMIN_PASSWORD, true)])
    case BeginEdit(id, edit) => s.(calls := s.calls + [Reading(id, edit)])
    case Move(i, e) =>
      if i < |s.calls| then
        var (accounts, c) := AuthStep(lib, s.accounts, s.calls[i], e);
        AuthState(accounts, s.calls[i := c])
      else s
  }

  function AuthRun(lib: Library, s: AuthState, run: seq<AuthAction>): AuthState
    decreases run
  {
    if run == [] then s else AuthRun(lib, AuthNext(lib, s, run[0]), run[1..])
  }

  // ---- what every interleaving keeps ------------------------------------------------------

  /** The fields no edit touches. */
  predicate SameIdentity(lib: Library, a: Account, b: Account) {
    && a.id == b.id && a.name == b.name && lib.Norm(a.email) == lib.Norm(b.email)
    && a.isAdmin == b.isAdmin && a.isWarehouseWorker == b.isWarehouseWorker && a.createdAt == b.createdAt
  }

  ghost predicate OnlyDefaultAdmin(lib: Library, a: Account) {
    a.isAdmin ==> a.id == ADMIN_ID && lib.Norm(a.email) == lib.Norm(ADMIN_EMAIL)
  }

  ghost predicate AuthCallOk(lib: Library, accounts: seq<Account>, c: AuthCall) {
    && (c.Checking? || c.Adding? ==> OnlyDefaultAdmin(lib, c.account))
    && (c.Writing? ==> exists i :: 0 <= i < |accounts| && SameIdentity(lib, accounts[i], c.account))
  }

  ghost predicate AuthInv(lib: Library, s: AuthState) {
    && KeysDistinct(s.accounts, AccountKey) && KeysDistinct(s.accounts, EmailKey(lib))
    && forall i | 0 <= i < |s.calls| :: AuthCallOk(lib, s.accounts, s.calls[i])
  }

  /** Accounts keep their place and identity; new ones come at the end. */
  ghost predicate Preserves(lib: Library, before: seq<Account>, after: seq<Account>) {
    |before| <= |after| && forall i | 0 <= i < |before| :: SameIdentity(lib, before[i], after[i])
  }

  lemma {:induction false} NoClash(lib: Library, accounts: seq<Account>, account: Account)
    ensures Clash(lib, accounts, account).None? <==>
              forall i | 0 <= i < |accounts| ::
                  accounts[i].id != account.id && lib.Norm(accounts[i].email) != lib.Norm(account.email)
  {
    if accounts != [] {
      NoClash(lib, accounts[1..], account);
      assert forall i | 1 <= i < |accounts| :: accounts[i] == accounts[1..][i - 1];
      assert forall i | 0 <= i < |accounts| - 1 :: accounts[1..][i] == accounts[i + 1];
    }
  }

  lemma AddKeepsDistinct(lib: Library, accounts: seq<Account>, account: Account, disk: Disk)
    requires Lawful(lib) && KeysDistinct(accounts, AccountKey) && KeysDistinct(accounts, EmailKey(lib))
    requires AddAccount(lib, accounts, account, disk).Success?
    ensures
      var after := AddAccount(lib, accounts, account, disk).value;
      KeysDistinct(after, AccountKey) && KeysDistinct(after, EmailKey(lib)) && Preserves(lib, accounts, after)
  {
    NoClash(lib, accounts, account);
    var all, after := accounts + [account], Written(lib, accounts + [account]);
    assert forall i | 0 <= i < |all| ::
        AccountKey(after[i]) == AccountKey(all[i]) && EmailKey(lib)(after[i]) == EmailKey(lib)(all[i]);
    assert KeysDistinct(all, AccountKey) && KeysDistinct(all, EmailKey(lib));
  }

  /** Writing back a copy whose identity is current replaces exactly that account. */
  lemma UpdateReplaces(lib: Library, accounts: seq<Account>, account: Account, i: nat, disk: Disk)
    requires Lawful(lib) && KeysDistinct(accounts, AccountKey) && KeysDistinct(accounts, EmailKey(lib))
    requires i < |accounts| && SameIdentity(lib, accounts[i], account)
    ensures disk.Works? ==> UpdateAccount(lib, accounts, account, disk).Success?
    ensures UpdateAccount(lib, accounts, account, disk).Success? ==>
              && UpdateAccount(lib, accounts, account, disk).value == Written(lib, accounts[i := account])
              && Preserves(lib, accounts, Written(lib, accounts[i := account]))
              && KeysDistinct(Written(lib, accounts[i := account]), AccountKey)
              && KeysDistinct(Written(lib, accounts[i := account]), EmailKey(lib))
  {
    forall j | 0 <= j < |accounts| && j != i
      ensures accounts[j].id != account.id && lib.Norm(accounts[j].email) != lib.Norm(account.email)
    {
      assert AccountKey(accounts[j]) != AccountKey(accounts[i])
          && EmailKey(lib)(accounts[j]) != EmailKey(lib)(accounts[i]);
    }
    FindNone(accounts, AccountKey, account.id);
    assert accounts[i] in accounts;
    assert Replaced(accounts, account) == accounts[i := account];
    var after := Written(lib, accounts[i := account]);
    assert forall j | 0 <= j < |accounts| ::
        AccountKey(after[j]) == AccountKey(accounts[j]) && EmailKey(lib)(after[j]) == EmailKey(lib)(accounts[j]);
  }

  lemma AuthStepPreserves(lib: Library, accounts: seq<Account>, c: AuthCall, e: Surroundings)
    requires Lawful(lib) && KeysDistinct(accounts, AccountKey) && KeysDistinct(accounts, EmailKey(lib))
        && AuthCallOk(lib, accounts, c)
    ensures
      var (after, c') := AuthStep(lib, accounts, c, e);
      && KeysDistinct(after, AccountKey) && KeysDistinct(after, EmailKey(lib))
      && Preserves(lib, accounts, after)
  {
    if c.Adding? && AddAccount(lib, accounts, c.account, e.disk).Success? {
      AddKeepsDistinct(lib, accounts, c.account, e.disk);
    } else if c.Writing? && UpdateAccount(lib, accounts, c.account, e.disk).Success? {
      var i :| 0 <= i < |accounts| && SameIdentity(lib, accounts[i], c.account);
      UpdateReplaces(lib, accounts, c.account, i, e.disk);
    } else {
      assert AuthStep(lib, accounts, c, e).0 == accounts;
    }
  }

  lemma AuthStepCallOk(lib: Library, accounts: seq<Account>, c: AuthCall, e: Surroundings)
    requires AuthCallOk(lib, accounts, c)
    ensures AuthCallOk(lib, AuthStep(lib, accounts, c, e).0, AuthStep(lib, accounts, c, e).1)
  {
    if c.Reading? && AuthStep(lib, accounts, c, e).1.Writing? {
      var found := Find(accounts, AccountKey, c.id);
      var i :| 0 <= i < |accounts| && accounts[i] == found.value;
      assert SameIdentity(lib, accounts[i], AuthStep(lib, accounts, c, e).1.account);
    }
  }

  lemma AuthCallOkSurvives(lib: Library, before: seq<Account>, after: seq<Account>, c: AuthCall)
    requires AuthCallOk(lib, before, c) && Preserves(lib, before, after)
    ensures AuthCallOk(lib, after, c)
  {
    if c.Writing? {
      var i :| 0 <= i < |before| && SameIdentity(lib, before[i], c.account);
      assert SameIdentity(lib, after[i], c.account);
    }
  }

  lemma AuthNextKeepsInv(lib: Library, s: AuthState, a: AuthAction)
    requires Lawful(lib) && AuthInv(lib, s)
    ensures AuthInv(lib, AuthNext(lib, s, a)) && Preserves(lib, s.accounts, AuthNext(lib, s, a).accounts)
  {
    var s' := AuthNext(lib, s, a);
    if a.Move? && a.call < |s.calls| {
      AuthStepPreserves(lib, s.accounts, s.calls[a.call], a.around);
      AuthStepCallOk(lib, s.accounts, s.calls[a.call], a.around);
    }
    forall i | 0 <= i < |s'.calls| ensures AuthCallOk(lib, s'.accounts, s'.calls[i]) {
      if i < |s.calls| && !(a.Move? && a.call == i) {
        AuthCallOkSurvives(lib, s.accounts, s'.accounts, s.calls[i]);
      }
    }
  }

  /** IDENTITY IS PERMANENT and IDs and normalised emails stay pairwise distinct, under
      any interleaving of registrations and edits, failing calls included: however many
      registrations of one email race, at most one account results. */
  lemma {:induction false} IdentityNeverChanges(lib: Library, s: AuthState, run: seq<AuthAction>)
    requires Lawful(lib) && AuthInv(lib, s)
    ensures AuthInv(lib, AuthRun(lib, s, run))
    ensures Preserves(lib, s.accounts, AuthRun(lib, s, run).accounts)
    decreases run
  {
    if run != [] {
      var s' := AuthNext(lib, s, run[0]);
      AuthNextKeepsInv(lib, s, run[0]);
      IdentityNeverChanges(lib, s', run[1..]);
      var end := AuthRun(lib, s', run[1..]).accounts;
      forall i | 0 <= i < |s.accounts| ensures SameIdentity(lib, s.accounts[i], end[i]) {
        assert SameIdentity(lib, s.accounts[i], s'.accounts[i]) && SameIdentity(lib, s'.accounts[i], end[i]);
      }
    }
  }

  ghost predicate AdminsAreDefault(lib: Library, accounts: seq<Account>) {
    forall i | 0 <= i < |accounts| :: OnlyDefaultAdmin(lib, accounts[i])
  }

  lemma AuthNextKeepsAdmins(lib: Library, s: AuthState, a: AuthAction)
    requires Lawful(lib) && AuthInv(lib, s) && AdminsAreDefault(lib, s.accounts)
    ensures AdminsAreDefault(lib, AuthNext(lib, s, a).accounts)
  {
    var s' := AuthNext(lib, s, a);
    AuthNextKeepsInv(lib, s, a);
    forall i | 0 <= i < |s'.accounts| ensures OnlyDefaultAdmin(lib, s'.accounts[i]) {
      if i < |s.accounts| {
        assert SameIdentity(lib, s.accounts[i], s'.accounts[i]);
      } else {
        var c := s.calls[a.call];
        assert AuthCallOk(lib, s.accounts, s.calls[a.call]);
        assert c.Adding? && s'.accounts[i] == Normalised(lib, c.account);
      }
    }
  }

  /** ONE ADMIN: from a file without other admins (an empty one, say) every admin of every
      run has the default ID and email, so there is never more than one. */
  lemma {:induction false} OnlyAdminIsDefault(lib: Library, s: AuthState, run: seq<AuthAction>)
    requires Lawful(lib) && AuthInv(lib, s) && AdminsAreDefault(lib, s.accounts)
    ensures
      var end := AuthRun(lib, s, run).accounts;
      && AdminsAreDefault(lib, end)
      && forall i, j | 0 <= i < |end| && 0 <= j < |end| && end[i].isAdmin && end[j].isAdmin :: i == j
    decreases run
  {
    if run != [] {
      AuthNextKeepsInv(lib, s, run[0]);
      AuthNextKeepsAdmins(lib, s, run[0]);
      OnlyAdminIsDefault(lib, AuthNext(lib, s, run[0]), run[1..]);
    } else {
      forall i, j | 0 <= i < j < |s.accounts| ensures !(s.accounts[i].isAdmin && s.accounts[j].isAdmin) {
        assert AccountKey(s.accounts[i]) != AccountKey(s.accounts[j]);
      }
    }
  }

  // ---- what only some interleavings keep ----------------------------------------------------

  datatype Flag = Approval | MustReset

  function FlagOf(flag: Flag, a: Account): bool {
    if flag.Approval? then a.isApproved else a.mustResetPassword
  }

  /** The edit is meant to set the flag to the opposite of `v`. */
  predicate Opposes(edit: Edit, flag: Flag, v: bool) {
    match edit
    case Approve(w) => flag.Approval? && w != v
    case Reset(_) => flag.MustReset? && !v
    case Change(_, _) => flag.MustReset? && v
  }

  /** No step of the run reads the account for an edit meant to flip the flag. */
  ghost predicate NoOpposingRead(lib: Library, s: AuthState, run: seq<AuthAction>, id: string, flag: Flag, v: bool)
    decreases run
  {
    run != [] ==>
      && !(run[0].Move? && run[0].call < |s.calls| && s.calls[run[0].call].Reading?
           && s.calls[run[0].call].id == id && Opposes(s.calls[run[0].call].edit, flag, v))
      && NoOpposingRead(lib, AuthNext(lib, s, run[0]), run[1..], id, flag, v)
  }

  /** Every copy of the account waiting to be written back has the flag at `v`. */
  ghost predicate CopiesAgree(s: AuthState, id: string, flag: Flag, v: bool) {
    forall c | c in s.calls && c.Writing? && c.account.id == id :: FlagOf(flag, c.account) == v
  }

  lemma FlagStep(lib: Library, s: AuthState, i: nat, k: nat, e: Surroundings, flag: Flag, v: bool)
    requires Lawful(lib) && AuthInv(lib, s) && i < |s.accounts| && k < |s.calls|
    requires FlagOf(flag, s.accounts[i]) == v
    requires s.calls[k].Writing? && s.calls[k].account.id == s.accounts[i].id ==> FlagOf(flag, s.calls[k].account) == v
    requires !(s.calls[k].Reading? && s.calls[k].id == s.accounts[i].id && Opposes(s.calls[k].edit, flag, v))
    ensures
      var (after, c) := AuthStep(lib, s.accounts, s.calls[k], e);
      && i < |after| && after[i].id == s.accounts[i].id && FlagOf(flag, after[i]) == v
      && (c.Writing? && c.account.id == s.accounts[i].id ==> FlagOf(flag, c.account) == v)
  {
    var c := s.calls[k];
    assert AuthCallOk(lib, s.accounts, s.calls[k]);
    AuthStepPreserves(lib, s.accounts, c, e);
    if c.Writing? && UpdateAccount(lib, s.accounts, c.account, e.disk).Success? {
      var j :| 0 <= j < |s.accounts| && SameIdentity(lib, s.accounts[j], c.account);
      UpdateReplaces(lib, s.accounts, c.account, j, e.disk);
      if j != i {
        assert AccountKey(s.accounts[j]) != AccountKey(s.accounts[i]);
      }
    } else if c.Reading? && AuthStep(lib, s.accounts, c, e).1.Writing? {
      var found := Find(s.accounts, AccountKey, c.id);
      if c.id == s.accounts[i].id {
        FindUnique(s.accounts, AccountKey, i);
      }
    }
  }

  lemma FlagNext(lib: Library, s: AuthState, a: AuthAction, i: nat, flag: Flag, v: bool)
    requires Lawful(lib) && AuthInv(lib, s) && i < |s.accounts|
    requires FlagOf(flag, s.accounts[i]) == v && CopiesAgree(s, s.accounts[i].id, flag, v)
    requires NoOpposingRead(lib, s, [a], s.accounts[i].id, flag, v)
    ensures
      var s' := AuthNext(lib, s, a);
      i < |s'.accounts| && s'.accounts[i].id == s.accounts[i].id && FlagOf(flag, s'.accounts[i]) == v
          && CopiesAgree(s', s.accounts[i].id, flag, v)
  {
    if a.Move? && a.call < |s.calls| {
      assert s.calls[a.call] in s.calls;
      FlagStep(lib, s, i, a.call, a.around, flag, v);
    }
  }

  lemma {:induction false} FlagHolds(lib: Library, s: AuthState, run: seq<AuthAction>, i: nat, flag: Flag, v: bool)
    requires Lawful(lib) && AuthInv(lib, s) && i < |s.accounts|
    requires FlagOf(flag, s.accounts[i]) == v && CopiesAgree(s, s.accounts[i].id, flag, v)
    requires NoOpposingRead(lib, s, run, s.accounts[i].id, flag, v)
    ensures i < |AuthRun(lib, s, run).accounts| && FlagOf(flag, AuthRun(lib, s, run).accounts[i]) == v
    decreases run
  {
    if run != [] {
      var s' := AuthNext(lib, s, run[0]);
      assert [run[0]][1..] == [];
      FlagNext(lib, s, run[0], i, flag, v);
      AuthNextKeepsInv(lib, s, run[0]);
      FlagHolds(lib, s', run[1..], i, flag, v);
    }
  }

  /** REVOCATION AND FORCED RESET under interleaving. The flag of an account stays as it
      is, in every run without a later edit meant to flip it, exactly when no stale copy
      with the other value is waiting to be written back: a call that read the account
      before the flag was set silently undoes it. */
  lemma FlagHoldsIffNoStaleCopy(lib: Library, s: AuthState, i: nat, flag: Flag)
    requires Lawful(lib) && AuthInv(lib, s) && i < |s.accounts|
    ensures
      var id, v := s.accounts[i].id, FlagOf(flag, s.accounts[i]);
      (forall run | NoOpposingRead(lib, s, run, id, flag, v) ::
         i < |AuthRun(lib, s, run).accounts| && FlagOf(flag, AuthRun(lib, s, run).accounts[i]) == v)
      <==> CopiesAgree(s, id, flag, v)
  {
    var id, v := s.accounts[i].id, FlagOf(flag, s.accounts[i]);
    if CopiesAgree(s, id, flag, v) {
      forall run | NoOpposingRead(lib, s, run, id, flag, v)
        ensures i < |AuthRun(lib, s, run).accounts| && FlagOf(flag, AuthRun(lib, s, run).accounts[i]) == v
      {
        FlagHolds(lib, s, run, i, flag, v);
      }
    } else {
      var k :| 0 <= k < |s.calls| && s.calls[k].Writing? && s.calls[k].account.id == id
          && FlagOf(flag, s.calls[k].account) != v;
      var run := StaleCopyFlips(lib, s, i, k, flag);
      assert NoOpposingRead(lib, s, run, id, flag, v);
    }
  }

  lemma StaleCopyFlips(lib: Library, s: AuthState, i: nat, k: nat, flag: Flag) returns (run: seq<AuthAction>)
    requires Lawful(lib) && AuthInv(lib, s) && i < |s.accounts|
    requires k < |s.calls| && s.calls[k].Writing? && s.calls[k].account.id == s.accounts[i].id
    ensures NoOpposingRead(lib, s, run, s.accounts[i].id, flag, FlagOf(flag, s.accounts[i]))
    ensures i < |AuthRun(lib, s, run).accounts|
    ensures FlagOf(flag, AuthRun(lib, s, run).accounts[i]) == FlagOf(flag, s.calls[k].account)
  {
    var a := Move(k, CLEAR);
    run := [a];
    assert run[1..] == [];
    StaleWriteWins(lib, s, i, k);
    assert AuthRun(lib, s, run) == AuthNext(lib, s, a);
  }

  // ---- the stale copy is reachable from everywhere ---------------------------------------------

  const CLEAR := Surroundings(Works, (password: string) => Some(password), "")

  /** Approval taken or reset forced, and an edit that has nothing to do with it. */
  function Flip(flag: Flag): Edit { if flag.Approval? then Approve(false) else Reset("") }

  function Bystander(flag: Flag): Edit { if flag.Approval? then Reset("") else Approve(true) }

  /** An edit that has read its account. */
  lemma ReadingRun(lib: Library, s: AuthState, i: nat, edit: Edit) returns (copy: Account)
    requires AuthInv(lib, s) && i < |s.accounts| && !edit.Change?
    ensures Edited(lib, s.accounts[i], edit, CLEAR) == Writing(copy) && SameIdentity(lib, s.accounts[i], copy)
    ensures AuthRun(lib, s, [BeginEdit(s.accounts[i].id, edit), Move(|s.calls|, CLEAR)])
         == AuthState(s.accounts, s.calls + [Writing(copy)])
  {
    var run := [BeginEdit(s.accounts[i].id, edit), Move(|s.calls|, CLEAR)];
    copy := Edited(lib, s.accounts[i], edit, CLEAR).account;
    FindUnique(s.accounts, AccountKey, i);
    var s1 := AuthNext(lib, s, run[0]);
    assert run[1..] == [run[1]] && run[1..][1..] == [];
    assert AuthNext(lib, s1, run[1]) == AuthState(s.accounts, s.calls + [Writing(copy)]);
    assert AuthRun(lib, s, run) == AuthRun(lib, s1, run[1..]);
    assert AuthRun(lib, s1, run[1..]) == AuthRun(lib, AuthNext(lib, s1, run[1]), []);
  }

  lemma {:induction false} AuthRunConcat(lib: Library, s: AuthState, r1: seq<AuthAction>, r2: seq<AuthAction>)
    ensures AuthRun(lib, s, r1 + r2) == AuthRun(lib, AuthRun(lib, s, r1), r2)
    decreases r1
  {
    if r1 == [] {
      assert r1 + r2 == r2;
    } else {
      assert (r1 + r2)[1..] == r1[1..] + r2;
      AuthRunConcat(lib, AuthNext(lib, s, r1[0]), r1[1..], r2);
    }
  }

  /** Reading, then writing with nothing in between. */
  lemma WholeEdit(lib: Library, s: AuthState, i: nat, edit: Edit) returns (run: seq<AuthAction>)
    requires Lawful(lib) && AuthInv(lib, s) && i < |s.accounts| && !edit.Change?
    ensures
      var c := Edited(lib, s.accounts[i], edit, CLEAR);
      && c.Writing? && run != [] && run[0] == BeginEdit(s.accounts[i].id, edit)
      && AuthRun(lib, s, run) == AuthState(Written(lib, s.accounts[i := c.account]), s.calls + [Closed(None)])
  {
    var k := |s.calls|;
    var r1 := [BeginEdit(s.accounts[i].id, edit), Move(k, CLEAR)];
    var copy := ReadingRun(lib, s, i, edit);
    var s1 := AuthState(s.accounts, s.calls + [Writing(copy)]);
    UpdateReplaces(lib, s.accounts, copy, i, Works);
    run := r1 + [Move(k, CLEAR)];
    AuthRunConcat(lib, s, r1, [Move(k, CLEAR)]);
    assert [Move(k, CLEAR)][1..] == [];
    assert AuthRun(lib, s1, [Move(k, CLEAR)]) == AuthNext(lib, s1, Move(k, CLEAR));
    assert s1.calls[k := Closed(None)] == s.calls + [Closed(None)];
  }

  /** A bystander reads the account, then the flipping edit is served whole. */
  lemma FlippedBehindACopy(lib: Library, s: AuthState, i: nat, flag: Flag)
    returns (run: seq<AuthAction>, stale: Account, copy: Account)
    requires Lawful(lib) && AuthInv(lib, s) && i < |s.accounts|
    ensures AuthRun(lib, s, run)
         == AuthState(Written(lib, s.accounts[i := copy]), s.calls + [Writing(stale)] + [Closed(None)])
    ensures BeginEdit(s.accounts[i].id, Flip(flag)) in run
    ensures SameIdentity(lib, s.accounts[i], stale) && SameIdentity(lib, s.accounts[i], copy)
    ensures FlagOf(flag, stale) == FlagOf(flag, s.accounts[i]) && FlagOf(flag, copy) == !flag.Approval?
  {
    var r0 := [BeginEdit(s.accounts[i].id, Bystander(flag)), Move(|s.calls|, CLEAR)];
    stale := ReadingRun(lib, s, i, Bystander(flag));
    var s1 := AuthState(s.accounts, s.calls + [Writing(stale)]);
    IdentityNeverChanges(lib, s, r0);
    copy := Edited(lib, s.accounts[i], Flip(flag), CLEAR).account;
    var flip := WholeEdit(lib, s1, i, Flip(flag));
    AuthRunConcat(lib, s, r0, flip);
    run := r0 + flip;
    assert run[|r0|] == flip[0];
  }

  /** LOST UPDATE: from every state, whatever calls are in flight, an account that is approved
      (or not under reset) can have its approval taken (or a reset forced) by an edit that
      completes, and get it back from an edit of something else, with no edit in between
      meant to undo the first. */
  lemma LostUpdateIsReachable(lib: Library, s: AuthState, i: nat, flag: Flag)
    returns (r1: seq<AuthAction>, r2: seq<AuthAction>)
    requires Lawful(lib) && AuthInv(lib, s) && i < |s.accounts| && FlagOf(flag, s.accounts[i]) == flag.Approval?
    ensures
      var id, mid := s.accounts[i].id, AuthRun(lib, s, r1);
      && BeginEdit(id, Flip(flag)) in r1
      && mid.calls != [] && mid.calls[|mid.calls| - 1] == Closed(None)
      && i < |mid.accounts| && mid.accounts[i].id == id && FlagOf(flag, mid.accounts[i]) != flag.Approval?
      && NoOpposingRead(lib, mid, r2, id, flag, !flag.Approval?)
      && i < |AuthRun(lib, mid, r2).accounts| && FlagOf(flag, AuthRun(lib, mid, r2).accounts[i]) == flag.Approval?
  {
    var run, stale, copy := FlippedBehindACopy(lib, s, i, flag);
    r1 := run;
    IdentityNeverChanges(lib, s, r1);
    var mid := AuthRun(lib, s, r1);
    assert mid.accounts[i] == Normalised(lib, copy) && mid.calls[|s.calls|] == Writing(stale);
    r2 := StaleCopyFlips(lib, mid, i, |s.calls|, flag);
  }

  lemma SameIdSamePlace(accounts: seq<Account>, i: nat, j: nat)
    requires KeysDistinct(accounts, AccountKey) && i < |accounts| && j < |accounts|
    ensures accounts[i].id == accounts[j].id ==> i == j
  {
    assert i < j ==> AccountKey(accounts[i]) != AccountKey(accounts[j]);
    assert j < i ==> AccountKey(accounts[j]) != AccountKey(accounts[i]);
  }

  /** A waiting copy, once written, becomes the account, whatever was written meanwhile. */
  lemma StaleWriteWins(lib: Library, s: AuthState, i: nat, k: nat)
    requires Lawful(lib) && AuthInv(lib, s) && i < |s.accounts|
    requires k < |s.calls| && s.calls[k].Writing? && s.calls[k].account.id == s.accounts[i].id
    ensures
      var after := AuthNext(lib, s, Move(k, CLEAR)).accounts;
      after == Written(lib, s.accounts[i := s.calls[k].account])
  {
    var c := s.calls[k];
    assert AuthCallOk(lib, s.accounts, s.calls[k]);
    var j :| 0 <= j < |s.accounts| && SameIdentity(lib, s.accounts[j], c.account);
    SameIdSamePlace(s.accounts, i, j);
    UpdateReplaces(lib, s.accounts, c.account, i, Works);
    assert AuthStep(lib, s.accounts, c, CLEAR).0
        == UpdateAccount(lib, s.accounts, c.account, Works).value;
  }
}
