/** What each account operation does to the rows, and what it answers, case by case. */
module AccountFacts {
  import opened Models
  import opened Sums
  import opened Records
  import opened Integrity
  import opened Accounts
  import opened AuthService

  // ---- logging in ----------------------------------------------------------------------

  /** The account at `k` is the first whose trimmed, lower-cased email is the one given. */
  ghost predicate FirstWithEmail(lib: Library, accounts: seq<Account>, email: string, k: nat) {
    && k < |accounts| && lib.text.Norm(accounts[k].email) == lib.text.Norm(email)
    && forall j | 0 <= j < k :: lib.text.Norm(accounts[j].email) != lib.text.Norm(email)
  }

  lemma FoundByEmail(lib: Library, accounts: seq<Account>, email: string)
    requires Lawful(lib)
    ensures
      var k := IndexBy(accounts, EmailKey(lib), lib.Norm(lib.Norm(email)));
      && (k < |accounts| ==> FirstWithEmail(lib, accounts, email, k))
      && (k == |accounts| ==> forall a | a in accounts :: lib.text.Norm(a.email) != lib.text.Norm(email))
      && (forall i: nat :: FirstWithEmail(lib, accounts, email, i) ==> i == k)
  {
    var k := IndexBy(accounts, EmailKey(lib), lib.Norm(lib.Norm(email)));
    IndexByIsFirst(accounts, EmailKey(lib), lib.Norm(email), k);
    forall i: nat | FirstWithEmail(lib, accounts, email, i) ensures i == k {
      IndexByIsFirst(accounts, EmailKey(lib), lib.Norm(email), i);
    }
    forall a | a in accounts && k == |accounts| ensures lib.text.Norm(a.email) != lib.text.Norm(email) {
      var j :| 0 <= j < |accounts| && accounts[j] == a;
      assert EmailKey(lib)(accounts[j]) != lib.Norm(email);
    }
  }

  /** LOGIN, from the rows: it succeeds with `a` exactly when both fields are filled in, the
      file reads, `a` is the first account of that email, its stored hash verifies the trimmed
      password, and it is admin or approved. */
  lemma LoginSucceedsIff(lib: Library, accounts: seq<Account>, email: string, password: string, disk: Disk, a: Account)
    requires Lawful(lib)
    ensures Authenticated(lib, accounts, email, password, disk) == Success(a) <==>
              && lib.text.Norm(email) != "" && lib.text.trim(password) != "" && !disk.ReadFails?
              && (exists k: nat :: FirstWithEmail(lib, accounts, email, k) && accounts[k] == a)
              && lib.verify(a.passwordHash, lib.text.trim(password))
              && (a.isAdmin || a.isApproved)
  {
    FoundByEmail(lib, accounts, email);
    var k := IndexBy(accounts, EmailKey(lib), lib.Norm(lib.Norm(email)));
    if k < |accounts| {
      assert FirstWithEmail(lib, accounts, email, k);
    }
  }

  /** Which refusal: a blank field first, then the file, then unknown email or wrong password,
      told apart by nothing, and pending approval only to who knows the password. */
  lemma LoginRefusal(lib: Library, accounts: seq<Account>, email: string, password: string, disk: Disk)
    requires Lawful(lib)
    ensures
      var r, secret := Authenticated(lib, accounts, email, password, disk), lib.text.trim(password);
      && (r == Failure(CredentialsRequired) <==> lib.text.Norm(email) == "" || secret == "")
      && (r == Failure(StorageFailed) <==> lib.text.Norm(email) != "" && secret != "" && disk.ReadFails?)
      && (r == Failure(InvalidCredentials) <==>
            && lib.text.Norm(email) != "" && secret != "" && !disk.ReadFails?
            && forall k: nat :: FirstWithEmail(lib, accounts, email, k) ==>
                 !lib.verify(accounts[k].passwordHash, secret))
      && (r == Failure(ApprovalPending) <==>
            && lib.text.Norm(email) != "" && secret != "" && !disk.ReadFails?
            && exists k: nat ::
                 && FirstWithEmail(lib, accounts, email, k) && lib.verify(accounts[k].passwordHash, secret)
                 && !accounts[k].isAdmin && !accounts[k].isApproved)
  {
    FoundByEmail(lib, accounts, email);
    var k := IndexBy(accounts, EmailKey(lib), lib.Norm(lib.Norm(email)));
    if k < |accounts| {
      assert FirstWithEmail(lib, accounts, email, k);
    }
  }

  // ---- edits ----------------------------------------------------------------------------------

  /** The one account an edit changed, field by field. */
  ghost predicate RowEdited(lib: Library, was: Account, now: Account, edit: Edit, e: Surroundings) {
    && now.id == was.id && now.name == was.name && now.email == lib.text.Norm(was.email)
    && now.isWarehouseWorker == was.isWarehouseWorker && now.isAdmin == was.isAdmin
    && now.createdAt == was.createdAt && now.updatedAt == e.now
    && (edit.Approve? ==>
          now.isApproved == edit.approved && now.passwordHash == was.passwordHash
          && now.mustResetPassword == was.mustResetPassword)
    && (!edit.Approve? ==>
          && e.hash(lib.text.trim(edit.newPassword)) == Some(now.passwordHash)
          && now.isApproved == was.isApproved && now.mustResetPassword == edit.Reset?)
  }

  /** Every account but the k-th is as it was, its email in the normalised form every write
      gives it. */
  ghost predicate OthersKept(lib: Library, accounts: seq<Account>, after: seq<Account>, k: nat) {
    && |after| == |accounts|
    && forall j | 0 <= j < |accounts| && j != k :: after[j] == accounts[j].(email := lib.text.Norm(accounts[j].email))
  }

  /** EDITS, from the rows: when one succeeds it changes one account, in the fields it is for,
      and the hash stored is one of the new password; when it fails it changes nothing. */
  lemma EditIs(lib: Library, accounts: seq<Account>, id: string, edit: Edit, e1: Surroundings, e2: Surroundings)
    requires Lawful(lib) && KeysDistinct(accounts, AccountKey) && KeysDistinct(accounts, EmailKey(lib))
    ensures
      var (after, c) := Altered(lib, accounts, id, edit, e1, e2);
      var k := IndexBy(accounts, AccountKey, id);
      && c.Closed?
      && (c == Closed(None) ==>
          k < |accounts| && RowEdited(lib, accounts[k], after[k], edit, e1) && OthersKept(lib, accounts, after, k))
      && (c != Closed(None) ==> after == accounts)
  {
    var k := IndexBy(accounts, AccountKey, id);
    if edit.Approve? || 4 <= |lib.text.trim(edit.newPassword)| {
      var c := AuthStep(lib, accounts, Reading(id, Asked(lib, edit)), e1).1;
      if c.Writing? {
        EditedCopy(lib, accounts[k], edit, e1);
        UpdateReplaces(lib, accounts, c.account, k, e2.disk);
      }
    }
  }

  lemma EditedCopy(lib: Library, a: Account, edit: Edit, e: Surroundings)
    ensures
      var c := Edited(lib, a, Asked(lib, edit), e);
      c.Writing? ==>
        && SameIdentity(lib, a, c.account) && c.account.email == a.email
        && RowEdited(lib, a, Normalised(lib, c.account), edit, e)
  {
  }

  /** The answer to an edit, case by case, in the order of the code. */
  lemma EditAnswer(lib: Library, accounts: seq<Account>, id: string, edit: Edit, e1: Surroundings, e2: Surroundings)
    requires Lawful(lib) && KeysDistinct(accounts, AccountKey) && KeysDistinct(accounts, EmailKey(lib))
    ensures
      var k := IndexBy(accounts, AccountKey, id);
      Altered(lib, accounts, id, edit, e1, e2).1 == Closed(
        if !edit.Approve? && |lib.text.trim(edit.newPassword)| < 4 then Some(PasswordTooShort)
        else if e1.disk.ReadFails? then Some(StorageFailed)
        else if k == |accounts| then Some(AccountNotFound)
        else if edit.Change? && !lib.verify(accounts[k].passwordHash, lib.text.trim(edit.current)) then
          Some(WrongPassword)
        else if !edit.Approve? && e1.hash(lib.text.trim(edit.newPassword)).None? then Some(HashFailed)
        else if !e2.disk.Works? then Some(StorageFailed)
        else None)
  {
    var k := IndexBy(accounts, AccountKey, id);
    if edit.Approve? || 4 <= |lib.text.trim(edit.newPassword)| {
      var c := AuthStep(lib, accounts, Reading(id, Asked(lib, edit)), e1).1;
      if c.Writing? {
        EditedCopy(lib, accounts[k], edit, e1);
        UpdateReplaces(lib, accounts, c.account, k, e2.disk);
        WorkingUpdateSucceedsIff(lib, accounts, c.account, k, e2.disk);
      }
    }
  }

  lemma WorkingUpdateSucceedsIff(lib: Library, accounts: seq<Account>, copy: Account, k: nat, disk: Disk)
    requires Lawful(lib) && KeysDistinct(accounts, AccountKey) && KeysDistinct(accounts, EmailKey(lib))
    requires k < |accounts| && SameIdentity(lib, accounts[k], copy)
    ensures
      var r := UpdateAccount(lib, accounts, copy, disk);
      (disk.Works? ==> r.Success?) && (!disk.Works? ==> r == Failure(StorageFailed))
  {
    UpdateReplaces(lib, accounts, copy, k, Works);
  }

  /** The repository's `Update`, from the rows, whatever account it is given: the email of another
      account first, then a missing ID, else every row with the ID becomes the account. */
  lemma UpdateAnswer(lib: Library, accounts: seq<Account>, a: Account, disk: Disk)
    ensures
      var r := UpdateAccount(lib, accounts, a, disk);
      if disk.ReadFails? then r == Failure(StorageFailed)
      else if exists x :: x in accounts && x.id != a.id && lib.text.Norm(x.email) == lib.text.Norm(a.email) then
        r == Failure(EmailTaken)
      else if forall x | x in accounts :: x.id != a.id then r == Failure(AccountNotFound)
      else if disk.WriteFails? then r == Failure(StorageFailed)
      else
        && r.Success? && |r.value| == |accounts|
        && forall i | 0 <= i < |accounts| ::
             && (accounts[i].id == a.id ==> r.value[i] == a.(email := lib.text.Norm(a.email)))
             && (accounts[i].id != a.id ==> r.value[i] == accounts[i].(email := lib.text.Norm(accounts[i].email)))
  {
    FindNone(accounts, AccountKey, a.id);
    if x :| x in accounts && x.id != a.id && lib.text.Norm(x.email) == lib.text.Norm(a.email) {
      var i :| 0 <= i < |accounts| && accounts[i] == x;
      assert EmailElsewhere(lib, accounts, a);
    }
  }

  // ---- registration ---------------------------------------------------------------------------

  /** The account `x` has the ID or the email of `a`. */
  predicate InTheWay(lib: Library, x: Account, a: Account) {
    x.id == a.id || lib.text.Norm(x.email) == lib.text.Norm(a.email)
  }

  /** The first account in the way is at `k`, and is named by its ID if that is the same. */
  ghost predicate ClashAt(lib: Library, accounts: seq<Account>, a: Account, k: nat, e: Error) {
    && k < |accounts| && InTheWay(lib, accounts[k], a)
    && (forall i | 0 <= i < k :: !InTheWay(lib, accounts[i], a))
    && e == if accounts[k].id == a.id then DuplicateId else EmailTaken
  }

  lemma {:induction false} ClashIsFirst(lib: Library, accounts: seq<Account>, a: Account)
    ensures Clash(lib, accounts, a).None? <==> forall i | 0 <= i < |accounts| :: !InTheWay(lib, accounts[i], a)
    ensures Clash(lib, accounts, a).Some? ==>
        exists k: nat :: ClashAt(lib, accounts, a, k, Clash(lib, accounts, a).value)
  {
    if accounts != [] {
      if InTheWay(lib, accounts[0], a) {
        assert ClashAt(lib, accounts, a, 0, Clash(lib, accounts, a).value);
      } else {
        var rest := accounts[1..];
        ClashIsFirst(lib, rest, a);
        assert forall i | 1 <= i < |accounts| :: accounts[i] == rest[i - 1];
        assert forall i | 0 <= i < |rest| :: rest[i] == accounts[i + 1];
        if Clash(lib, rest, a).Some? {
          var k: nat :| ClashAt(lib, rest, a, k, Clash(lib, rest, a).value);
          assert ClashAt(lib, accounts, a, k + 1, Clash(lib, accounts, a).value);
        }
      }
    }
  }

  /** The accounts as rewritten, with one more at the end. */
  ghost predicate OneAppended(lib: Library, accounts: seq<Account>, after: seq<Account>, a: Account) {
    && |after| == |accounts| + 1 && after[|accounts|] == a
    && forall j | 0 <= j < |accounts| :: after[j] == accounts[j].(email := lib.text.Norm(accounts[j].email))
  }

  /** REGISTRATION, from the rows: it succeeds exactly when the four argument tests pass, nobody
      has the email, the ID is free, the password hashes and the disk works; it then appends
      one account that is neither approved nor admin. A failing one changes nothing. */
  lemma RegistrationIs(lib: Library, accounts: seq<Account>, name: string, email: string, password: string,
                       isWarehouseWorker: bool, newId: string, now: string, e1: Surroundings, e2: Surroundings)
    requires Lawful(lib)
    ensures
      var (after, c) := Registered(lib, accounts, name, email, password, isWarehouseWorker, newId, now, e1, e2);
      && (c == Closed(None) <==>
            && lib.text.trim(name) != "" && lib.text.Norm(email) != ""
            && 4 <= |lib.text.trim(password)| && isWarehouseWorker
            && !e1.disk.ReadFails? && e1.hash(lib.text.trim(password)).Some? && e2.disk.Works?
            && forall i | 0 <= i < |accounts| ::
                 accounts[i].id != newId && lib.text.Norm(accounts[i].email) != lib.text.Norm(email))
      && (c == Closed(None) ==>
            && e1.hash(lib.text.trim(password)).Some?
            && OneAppended(lib, accounts, after,
                           Account(newId, lib.text.trim(name), lib.text.Norm(email),
                                   e1.hash(lib.text.trim(password)).value,
                                   true, false, false, false, now, now)))
      && (c != Closed(None) ==> after == accounts)
  {
    FoundByEmail(lib, accounts, email);
    if RegisterObjection(lib, name, email, password, isWarehouseWorker).None? {
      var a := NewAccount(newId, lib.text.trim(name), lib.Norm(email), now);
      AdditionIs(lib, accounts, a, lib.text.trim(password), false, e1, e2);
    }
  }

  /** Checking the email and adding, with nothing in between. */
  lemma AdditionIs(lib: Library, accounts: seq<Account>, a: Account, password: string, byDefault: bool,
                   e1: Surroundings, e2: Surroundings)
    requires Lawful(lib)
    ensures
      var (after, c) := AuthFinish(lib, accounts, Checking(a, password, byDefault), e1, e2);
      var taken := exists i :: 0 <= i < |accounts| && lib.text.Norm(accounts[i].email) == lib.text.Norm(a.email);
      var free := forall i | 0 <= i < |accounts| :: accounts[i].id != a.id;
      var usable := e1.hash(password).Some? && e2.disk.Works? && free;
      && (!e1.disk.ReadFails? && !taken && usable ==>
            && c == Closed(None)
            && OneAppended(lib, accounts, after,
                           a.(email := lib.text.Norm(a.email), passwordHash := e1.hash(password).value)))
      && (e1.disk.ReadFails? || taken || !usable ==> after == accounts)
      && (e1.disk.ReadFails? ==> c == Closed(Some(StorageFailed)))
      && (!e1.disk.ReadFails? && taken ==> c == Closed(if byDefault then None else Some(EmailTaken)))
      && (!e1.disk.ReadFails? && !taken && e1.hash(password).None? ==> c == Closed(Some(HashFailed)))
      && (!e1.disk.ReadFails? && !taken && !usable ==> c != Closed(None))
  {
    EmailIsTaken(lib, accounts, a.email);
    if e1.hash(password).Some? {
      AppendingIs(lib, accounts, a.(passwordHash := e1.hash(password).value), e2.disk);
    }
  }

  lemma EmailIsTaken(lib: Library, accounts: seq<Account>, email: string)
    ensures Find(accounts, EmailKey(lib), lib.Norm(email)).Some?
       <==> exists i :: 0 <= i < |accounts| && lib.text.Norm(accounts[i].email) == lib.text.Norm(email)
  {
    FindNone(accounts, EmailKey(lib), lib.Norm(email));
    if i :| 0 <= i < |accounts| && lib.text.Norm(accounts[i].email) == lib.text.Norm(email) {
      assert accounts[i] in accounts && EmailKey(lib)(accounts[i]) == lib.Norm(email);
    }
  }

  /** The repository's `Add`, from the rows. */
  lemma AppendingIs(lib: Library, accounts: seq<Account>, a: Account, disk: Disk)
    ensures
      var r := AddAccount(lib, accounts, a, disk);
      && (r.Success? <==> disk.Works? && forall i | 0 <= i < |accounts| :: !InTheWay(lib, accounts[i], a))
      && (r.Success? ==> OneAppended(lib, accounts, r.value, a.(email := lib.text.Norm(a.email))))
      && (disk.ReadFails? ==> r == Failure(StorageFailed))
      && (!disk.ReadFails? && r.Failure? ==>
            if exists i :: 0 <= i < |accounts| && InTheWay(lib, accounts[i], a)
            then exists k: nat :: ClashAt(lib, accounts, a, k, r.error)
            else r.error == StorageFailed)
  {
    ClashIsFirst(lib, accounts, a);
    var all := Written(lib, accounts + [a]);
    assert forall j | 0 <= j < |accounts| :: all[j] == Normalised(lib, accounts[j]);
  }

  /** Which refusal a registration meets before it looks at the accounts. */
  lemma RegistrationRefusal(lib: Library, accounts: seq<Account>, name: string, email: string, password: string,
                            isWarehouseWorker: bool, newId: string, now: string, e1: Surroundings, e2: Surroundings)
    ensures
      var c := Registered(lib, accounts, name, email, password, isWarehouseWorker, newId, now, e1, e2).1;
      && (lib.text.trim(name) == "" ==> c == Closed(Some(NameRequired)))
      && (lib.text.trim(name) != "" && lib.text.Norm(email) == "" ==> c == Closed(Some(EmailRequired)))
      && (lib.text.trim(name) != "" && lib.text.Norm(email) != "" && |lib.text.trim(password)| < 4 ==>
            c == Closed(Some(PasswordTooShort)))
      && (lib.text.trim(name) != "" && lib.text.Norm(email) != "" && 4 <= |lib.text.trim(password)|
          && !isWarehouseWorker ==>
            c == Closed(Some(NotWarehouseEmployee)))
  {
  }

  /** THE DEFAULT ADMIN: added once, with its fixed ID, name and email, approved, and with a
      hash of the fixed password; if its email is taken nothing happens. */
  lemma DefaultAdminIs(lib: Library, accounts: seq<Account>, now: string, e1: Surroundings, e2: Surroundings)
    requires Lawful(lib)
    ensures
      var (after, c) := AuthFinish(lib, accounts, Checking(DefaultAdmin(now), ADMIN_PASSWORD, true), e1, e2);
      var email := lib.text.Norm("admin@ppe.local");
      if !e1.disk.ReadFails? && exists i :: 0 <= i < |accounts| && lib.text.Norm(accounts[i].email) == email then
        after == accounts && c == Closed(None)
      else if c == Closed(None) then
        && e1.hash("admin").Some?
        && OneAppended(lib, accounts, after,
                       Account("ACC-ADMIN", "Administrator", email, e1.hash("admin").value,
                               true, true, true, false, now, now))
      else after == accounts
  {
    AdditionIs(lib, accounts, DefaultAdmin(now), ADMIN_PASSWORD, true, e1, e2);
  }

  // ---- the file ---------------------------------------------------------------------------------

  /** WRITTEN LAYOUT: every field of an account stands under its own title, the email normalised
      and the flags as "true" or "false". */
  lemma AccountUnderTitles(lib: Library, a: Account)
    ensures
      var h, rec := ACCOUNT_HEADER, EncodeAccount(lib)(a);
      && Under(h, rec, "id", a.id) && Under(h, rec, "name", a.name) && Under(h, rec, "email", lib.text.Norm(a.email))
      && Under(h, rec, "password_hash", a.passwordHash)
      && Under(h, rec, "is_warehouse_worker", if a.isWarehouseWorker then "true" else "false")
      && Under(h, rec, "is_approved", if a.isApproved then "true" else "false")
      && Under(h, rec, "is_admin", if a.isAdmin then "true" else "false")
      && Under(h, rec, "must_reset_password", if a.mustResetPassword then "true" else "false")
      && Under(h, rec, "created_at", a.createdAt) && Under(h, rec, "updated_at", a.updatedAt)
  {
    var h, rec := ACCOUNT_HEADER, EncodeAccount(lib)(a);
    AllUnderTitles(h, rec);
  }

  /** A record of fewer than ten fields is skipped; a flag that is not one of the six words for
      true is false. */
  lemma AccountRecordIs(rec: seq<string>)
    ensures |rec| < 10 ==> DecodeAccount(rec) == Skipped
    ensures 10 <= |rec| && rec[6] !in {"1", "t", "T", "TRUE", "true", "True"} ==>
              DecodeAccount(rec).Row? && !DecodeAccount(rec).row.isAdmin
    ensures 10 <= |rec| && rec[5] !in {"1", "t", "T", "TRUE", "true", "True"} ==>
              DecodeAccount(rec).Row? && !DecodeAccount(rec).row.isApproved
  {
  }
}
