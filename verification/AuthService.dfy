/** The accounts repository and `AuthService`, as the code runs them: each operation is
    one uninterrupted path of the protocol of module Accounts. */
module AuthService {
  import opened Models
  import opened Sums
  import opened Records
  import opened Accounts

  // ---- record mapping -----------------------------------------------------------------

  function FormatBool(b: bool): string { if b then "true" else "false" }

  /** strconv.ParseBool with its error ignored: anything unrecognised is false. */
  predicate ParseBool(s: string) { s == "1" || s == "t" || s == "T" || s == "TRUE" || s == "true" || s == "True" }

  function EncodeAccount(lib: Library): Account -> seq<string> {
    (a: Account) =>
      [a.id, a.name, lib.Norm(a.email), a.passwordHash, FormatBool(a.isWarehouseWorker), FormatBool(a.isApproved),
       FormatBool(a.isAdmin), FormatBool(a.mustResetPassword), a.createdAt, a.updatedAt]
  }

  function DecodeAccount(rec: seq<string>): Parsed<Account> {
    if |rec| < 10 then Skipped
    else Row(Account(rec[0], rec[1], rec[2], rec[3], ParseBool(rec[4]), ParseBool(rec[5]), ParseBool(rec[6]),
                     ParseBool(rec[7]), rec[8], rec[9]))
  }

  const ACCOUNT_HEADER := ["id", "name", "email", "password_hash", "is_warehouse_worker", "is_approved", "is_admin",
                           "must_reset_password", "created_at", "updated_at"]

  function Stored(lib: Library): Account -> Account { (a: Account) => Normalised(lib, a) }

  lemma BoolRoundTrip(b: bool)
    ensures ParseBool(FormatBool(b)) == b
  {
  }

  lemma AccountRoundTrip(lib: Library, a: Account)
    ensures DecodeAccount(EncodeAccount(lib)(a)) == Row(Stored(lib)(a))
  {
    BoolRoundTrip(a.isWarehouseWorker);
    BoolRoundTrip(a.isApproved);
    BoolRoundTrip(a.isAdmin);
    BoolRoundTrip(a.mustResetPassword);
  }

  /** PERSISTENCE of accounts: what was written comes back, emails normalised; writing
      that again changes nothing more. */
  lemma AccountsRoundTrip(lib: Library, accounts: seq<Account>)
    requires Lawful(lib)
    ensures DecodeFile([ACCOUNT_HEADER] + EncodeRows(accounts, EncodeAccount(lib)), DecodeAccount)
        == Success(Written(lib, accounts))
    ensures Written(lib, Written(lib, accounts)) == Written(lib, accounts)
  {
    WritingSettles(lib, accounts);
    forall a | a in accounts ensures DecodeAccount(EncodeAccount(lib)(a)) == Row(Stored(lib)(a)) {
      AccountRoundTrip(lib, a);
    }
    FileRoundTrip(accounts, ACCOUNT_HEADER, EncodeAccount(lib), DecodeAccount, Stored(lib));
    StoredIsWritten(lib, accounts);
  }

  lemma StoredIsWritten(lib: Library, accounts: seq<Account>)
    ensures MapRows(accounts, Stored(lib)) == Written(lib, accounts)
  {
    forall i | 0 <= i < |accounts| ensures MapRows(accounts, Stored(lib))[i] == Written(lib, accounts)[i] {
      assert Stored(lib)(accounts[i]) == Normalised(lib, accounts[i]);
    }
  }

  lemma WritingSettles(lib: Library, accounts: seq<Account>)
    requires Lawful(lib)
    ensures Written(lib, Written(lib, accounts)) == Written(lib, accounts)
  {
    var once, twice := Written(lib, accounts), Written(lib, Written(lib, accounts));
    forall i | 0 <= i < |accounts| ensures twice[i] == once[i] {
      assert lib.Norm(once[i].email) == once[i].email;
    }
  }

  /** Only field counts can make reading the accounts fail, never what the fields hold. */
  lemma AccountsReadIffRectangular(file: seq<seq<string>>)
    ensures DecodeFile(file, DecodeAccount).Success? <==> Rectangular(file)
  {
    if |file| > 1 {
      AccountRecordsRead(file[1..]);
    }
  }

  lemma {:induction false} AccountRecordsRead(recs: seq<seq<string>>)
    ensures DecodeRows(recs, DecodeAccount).Success?
  {
    if recs != [] {
      AccountRecordsRead(recs[..|recs| - 1]);
    }
  }

  // ---- the repository --------------------------------------------------------------------

  class AccountsRepository {
    const lib: Library
    var file: seq<seq<string>>

    ghost predicate Parses()
      reads this
    {
      DecodeFile(file, DecodeAccount).Success?
    }

    /** A file that does not parse is a failing read. */
    ghost function Seen(disk: Disk): Disk
      reads this
    {
      if Parses() then disk else ReadFails
    }

    ghost function Around(e: Surroundings): Surroundings
      reads this
    {
      e.(disk := Seen(e.disk))
    }

    ghost function Rows(): seq<Account>
      reads this
    {
      var r := DecodeFile(file, DecodeAccount);
      if r.Success? then r.value else []
    }

    constructor (lib: Library, file: seq<seq<string>>)
      ensures this.lib == lib && this.file == file
    {
      this.lib, this.file := lib, file;
    }

    method ReadAll(disk: Disk) returns (r: Result<seq<Account>>)
      ensures r == if Seen(disk).ReadFails? then Failure(StorageFailed) else Success(Rows())
    {
      if disk.ReadFails? {
        return Failure(StorageFailed);
      }
      AccountsReadIffRectangular(file);
      if !Rectangular(file) {
        return Failure(StorageFailed);
      }
      if |file| <= 1 {
        return Success([]);
      }
      ghost var recs := file[1..];
      var out: seq<Account> := [];
      for idx := 1 to |file|
        invariant DecodeRows(recs[..idx - 1], DecodeAccount) == Success(out)
      {
        assert recs[..idx][..idx - 1] == recs[..idx - 1] && recs[idx - 1] == file[idx];
        var p := DecodeAccount(file[idx]);
        if p.Row? {
          out := out + [p.row];
        }
      }
      assert recs[..|file| - 1] == recs;
      r := Success(out);
    }

    method WriteAll(accounts: seq<Account>, disk: Disk) returns (e: Option<Error>)
      requires Lawful(lib)
      modifies `file
      ensures disk.WriteFails? ==> e == Some(StorageFailed) && file == old(file)
      ensures !disk.WriteFails? ==> e == None && Rows() == Written(lib, accounts) && Parses()
    {
      if disk.WriteFails? {
        return Some(StorageFailed);
      }
      var out := [ACCOUNT_HEADER];
      for i := 0 to |accounts|
        invariant out == [ACCOUNT_HEADER] + EncodeRows(accounts[..i], EncodeAccount(lib))
      {
        assert accounts[..i + 1][..i] == accounts[..i];
        out := out + [EncodeAccount(lib)(accounts[i])];
      }
      assert accounts[..|accounts|] == accounts;
      AccountsRoundTrip(lib, accounts);
      file := out;
      e := None;
    }

    method GetByID(id: string, disk: Disk) returns (r: Result<Option<Account>>)
      ensures r == if Seen(disk).ReadFails? then Failure(StorageFailed) else Success(Find(Rows(), AccountKey, id))
    {
      var all := ReadAll(disk);
      if all.Failure? {
        return Failure(all.error);
      }
      var accounts := all.value;
      for i := 0 to |accounts|
        invariant forall j | 0 <= j < i :: accounts[j].id != id
      {
        if accounts[i].id == id {
          IndexByIsFirst(accounts, AccountKey, id, i);
          return Success(Some(accounts[i]));
        }
      }
      IndexByIsFirst(accounts, AccountKey, id, |accounts|);
      r := Success(None);
    }

    method GetByEmail(email: string, disk: Disk) returns (r: Result<Option<Account>>)
      ensures r == if Seen(disk).ReadFails? then Failure(StorageFailed)
                   else Success(Find(Rows(), EmailKey(lib), lib.Norm(email)))
    {
      var needle := lib.Norm(email);
      var all := ReadAll(disk);
      if all.Failure? {
        return Failure(all.error);
      }
      var accounts := all.value;
      for i := 0 to |accounts|
        invariant forall j | 0 <= j < i :: EmailKey(lib)(accounts[j]) != needle
      {
        if lib.Norm(accounts[i].email) == needle {
          IndexByIsFirst(accounts, EmailKey(lib), needle, i);
          return Success(Some(accounts[i]));
        }
      }
      IndexByIsFirst(accounts, EmailKey(lib), needle, |accounts|);
      r := Success(None);
    }

    method Add(account: Account, disk: Disk) returns (e: Option<Error>)
      requires Lawful(lib)
      modifies `file
      ensures
        var r := AddAccount(lib, old(Rows()), account, old(Seen(disk)));
        if r.Success? then e == None && Rows() == r.value && Parses() else e == Some(r.error) && file == old(file)
    {
      var all := ReadAll(disk);
      if all.Failure? {
        return Some(all.error);
      }
      var accounts := all.value;
      var email := lib.Norm(account.email);
      for i := 0 to |accounts|
        invariant Clash(lib, accounts, account) == Clash(lib, accounts[i..], account)
      {
        assert accounts[i..][0] == accounts[i] && accounts[i..][1..] == accounts[i + 1..];
        if accounts[i].id == account.id {
          return Some(DuplicateId);
        }
        if lib.Norm(accounts[i].email) == email {
          return Some(EmailTaken);
        }
      }
      e := WriteAll(accounts + [account], disk);
    }

    method Update(account: Account, disk: Disk) returns (e: Option<Error>)
      requires Lawful(lib)
      modifies `file
      ensures
        var r := UpdateAccount(lib, old(Rows()), account, old(Seen(disk)));
        if r.Success? then e == None && Rows() == r.value && Parses() else e == Some(r.error) && file == old(file)
    {
      var all := ReadAll(disk);
      if all.Failure? {
        return Some(all.error);
      }
      var before := all.value;
      var accounts := before;
      var email := lib.Norm(account.email);
      var found := false;
      for i := 0 to |before|
        invariant |accounts| == |before|
        invariant forall j | 0 <= j < |before| ::
            accounts[j] == if j < i && before[j].id == account.id then account else before[j]
        invariant found <==> exists j :: 0 <= j < i && before[j].id == account.id
        invariant forall j | 0 <= j < i :: before[j].id == account.id || lib.Norm(before[j].email) != email
      {
        var a := accounts[i];
        if a.id == account.id {
          accounts := accounts[i := account];
          found := true;
          continue;
        }
        if lib.Norm(a.email) == email {
          assert a == before[i];
          return Some(EmailTaken);
        }
      }
      FindNone(before, AccountKey, account.id);
      assert !EmailElsewhere(lib, before, account);
      if !found {
        return Some(AccountNotFound);
      }
      ghost var j :| 0 <= j < |before| && before[j].id == account.id;
      assert before[j] in before && AccountKey(before[j]) == account.id;
      assert accounts == Replaced(before, account);
      e := WriteAll(accounts, disk);
    }
  }

  // ---- the service ---------------------------------------------------------------------------

  /** Both repository calls of an operation with nothing in between. */
  function AuthFinish(lib: Library, accounts: seq<Account>, c: AuthCall, e1: Surroundings,
                      e2: Surroundings): (seq<Account>, AuthCall) {
    var (accounts', c') := AuthStep(lib, accounts, c, e1);
    AuthStep(lib, accounts', c', e2)
  }

  /** An uninterrupted operation is a run of the protocol in which only it moves. */
  lemma AuthFinishIsARun(lib: Library, accounts: seq<Account>, calls: seq<AuthCall>, c: AuthCall, e1: Surroundings,
                         e2: Surroundings)
    ensures
      var (after, c') := AuthFinish(lib, accounts, c, e1, e2);
      AuthRun(lib, AuthState(accounts, calls + [c]), [Move(|calls|, e1), Move(|calls|, e2)])
          == AuthState(after, calls + [c'])
  {
    var k := |calls|;
    var run := [Move(k, e1), Move(k, e2)];
    var s0 := AuthState(accounts, calls + [c]);
    var s1, s2 := AuthNext(lib, s0, run[0]), AuthNext(lib, AuthNext(lib, s0, run[0]), run[1]);
    assert s1.calls == calls + [s1.calls[k]] && s2.calls == calls + [s2.calls[k]];
    assert run[1..] == [run[1]] && run[1..][1..] == [];
    assert AuthRun(lib, s1, run[1..]) == AuthRun(lib, s2, []);
  }

  /** The argument tests of a registration, in the order of the code. */
  function RegisterObjection(lib: Library, name: string, email: string, password: string,
                             isWarehouseWorker: bool): Option<Error> {
    if lib.text.trim(name) == "" then Some(NameRequired)
    else if lib.Norm(email) == "" then Some(EmailRequired)
    else if |lib.text.trim(password)| < 4 then Some(PasswordTooShort)
    else if !isWarehouseWorker then Some(NotWarehouseEmployee)
    else None
  }

  function Registered(lib: Library, accounts: seq<Account>, name: string, email: string, password: string,
                      isWarehouseWorker: bool, newId: string, now: string, e1: Surroundings, e2: Surroundings)
    : (seq<Account>, AuthCall)
  {
    var objection := RegisterObjection(lib, name, email, password, isWarehouseWorker);
    if objection.Some? then (accounts, Closed(objection)) else
    AuthFinish(lib, accounts, Checking(NewAccount(newId, lib.text.trim(name), lib.Norm(email), now),
                                       lib.text.trim(password), false), e1, e2)
  }

  /** An edit as asked for: setting a password needs four characters, and passwords are
      trimmed. */
  function Altered(lib: Library, accounts: seq<Account>, id: string, edit: Edit, e1: Surroundings, e2: Surroundings)
    : (seq<Account>, AuthCall)
  {
    if !edit.Approve? && |lib.text.trim(edit.newPassword)| < 4 then (accounts, Closed(Some(PasswordTooShort)))
    else AuthFinish(lib, accounts, Reading(id, Asked(lib, edit)), e1, e2)
  }

  function Asked(lib: Library, edit: Edit): Edit {
    match edit
    case Approve(_) => edit
    case Reset(newPassword) => Reset(lib.text.trim(newPassword))
    case Change(current, newPassword) => Change(lib.text.trim(current), lib.text.trim(newPassword))
  }

  /** Who an email and password belong to, if they may enter. */
  function Authenticated(lib: Library, accounts: seq<Account>, email: string, password: string,
                         disk: Disk): Result<Account> {
    var needle, secret := lib.Norm(email), lib.text.trim(password);
    var found := Find(accounts, EmailKey(lib), lib.Norm(needle));
    if needle == "" || secret == "" then Failure(CredentialsRequired)
    else if disk.ReadFails? then Failure(StorageFailed)
    else if found.None? || !lib.verify(found.value.passwordHash, secret) then Failure(InvalidCredentials)
    else if !found.value.isAdmin && !found.value.isApproved then Failure(ApprovalPending)
    else Success(found.value)
  }

  class Service {
    const repo: AccountsRepository

    constructor (repo: AccountsRepository)
      ensures this.repo == repo
    {
      this.repo := repo;
    }

    /** `newId` and `now` are the fresh ID and time. */
    method Register(name0: string, email0: string, password0: string, isWarehouseWorker: bool,
                    newId: string, now: string, e1: Surroundings, e2: Surroundings) returns (err: Option<Error>)
      requires Lawful(repo.lib)
      modifies repo`file
      ensures
        (repo.Rows(), Closed(err))
        == Registered(repo.lib, old(repo.Rows()), name0, email0, password0, isWarehouseWorker, newId, now,
                      old(repo.Around(e1)), old(repo.Around(e2)))
    {
      var lib := repo.lib;
      var name, email, password := lib.text.trim(name0), lib.Norm(email0), lib.text.trim(password0);
      if name == "" {
        return Some(NameRequired);
      }
      if email == "" {
        return Some(EmailRequired);
      }
      if |password| < 4 {
        return Some(PasswordTooShort);
      }
      if !isWarehouseWorker {
        return Some(NotWarehouseEmployee);
      }
      var taken := repo.GetByEmail(email, e1.disk);
      if taken.Failure? {
        return Some(taken.error);
      }
      if taken.value.Some? {
        return Some(EmailTaken);
      }
      if e1.hash(password).None? {
        return Some(HashFailed);
      }
      err := repo.Add(NewAccount(newId, name, email, now).(passwordHash := e1.hash(password).value), e2.disk);
    }

    method EnsureDefaultAdmin(now: string, e1: Surroundings, e2: Surroundings) returns (err: Option<Error>)
      requires Lawful(repo.lib)
      modifies repo`file
      ensures
        (repo.Rows(), Closed(err))
        == AuthFinish(repo.lib, old(repo.Rows()), Checking(DefaultAdmin(now), ADMIN_PASSWORD, true),
                      old(repo.Around(e1)), old(repo.Around(e2)))
    {
      var taken := repo.GetByEmail(ADMIN_EMAIL, e1.disk);
      if taken.Failure? {
        return Some(taken.error);
      }
      if taken.value.Some? {
        return None;
      }
      if e1.hash(ADMIN_PASSWORD).None? {
        return Some(HashFailed);
      }
      err := repo.Add(DefaultAdmin(now).(passwordHash := e1.hash(ADMIN_PASSWORD).value), e2.disk);
    }

    method Authenticate(email0: string, password0: string, disk: Disk) returns (r: Result<Account>)
      ensures r == Authenticated(repo.lib, repo.Rows(), email0, password0, repo.Seen(disk))
    {
      var lib := repo.lib;
      var email, password := lib.Norm(email0), lib.text.trim(password0);
      if email == "" || password == "" {
        return Failure(CredentialsRequired);
      }
      var found := repo.GetByEmail(email, disk);
      if found.Failure? {
        return Failure(found.error);
      }
      if found.value.None? {
        return Failure(InvalidCredentials);
      }
      var account := found.value.value;
      if !lib.verify(account.passwordHash, password) {
        return Failure(InvalidCredentials);
      }
      if !account.isAdmin && !account.isApproved {
        return Failure(ApprovalPending);
      }
      r := Success(account);
    }

    method SetApproval(id: string, approved: bool, e1: Surroundings, e2: Surroundings) returns (err: Option<Error>)
      requires Lawful(repo.lib)
      modifies repo`file
      ensures
        (repo.Rows(), Closed(err))
        == Altered(repo.lib, old(repo.Rows()), id, Approve(approved), old(repo.Around(e1)), old(repo.Around(e2)))
    {
      var found := repo.GetByID(id, e1.disk);
      if found.Failure? {
        return Some(found.error);
      }
      if found.value.None? {
        return Some(AccountNotFound);
      }
      var account := found.value.value;
      account := account.(isApproved := approved, updatedAt := e1.now);
      err := repo.Update(account, e2.disk);
    }

    method ResetPasswordByAdmin(id: string, newPassword0: string, e1: Surroundings, e2: Surroundings)
      returns (err: Option<Error>)
      requires Lawful(repo.lib)
      modifies repo`file
      ensures
        (repo.Rows(), Closed(err))
        == Altered(repo.lib, old(repo.Rows()), id, Reset(newPassword0), old(repo.Around(e1)), old(repo.Around(e2)))
    {
      var newPassword := repo.lib.text.trim(newPassword0);
      if |newPassword| < 4 {
        return Some(PasswordTooShort);
      }
      var found := repo.GetByID(id, e1.disk);
      if found.Failure? {
        return Some(found.error);
      }
      if found.value.None? {
        return Some(AccountNotFound);
      }
      if e1.hash(newPassword).None? {
        return Some(HashFailed);
      }
      var account := found.value.value;
      account := account.(passwordHash := e1.hash(newPassword).value, mustResetPassword := true, updatedAt := e1.now);
      err := repo.Update(account, e2.disk);
    }

    method ChangePassword(id: string, current0: string, newPassword0: string, e1: Surroundings, e2: Surroundings)
      returns (err: Option<Error>)
      requires Lawful(repo.lib)
      modifies repo`file
      ensures
        (repo.Rows(), Closed(err))
        == Altered(repo.lib, old(repo.Rows()), id, Change(current0, newPassword0), old(repo.Around(e1)),
                   old(repo.Around(e2)))
    {
      var current := repo.lib.text.trim(current0);
      var newPassword := repo.lib.text.trim(newPassword0);
      if |newPassword| < 4 {
        return Some(PasswordTooShort);
      }
      var found := repo.GetByID(id, e1.disk);
      if found.Failure? {
        return Some(found.error);
      }
      if found.value.None? {
        return Some(AccountNotFound);
      }
      var account := found.value.value;
      if !repo.lib.verify(account.passwordHash, current) {
        return Some(WrongPassword);
      }
      if e1.hash(newPassword).None? {
        return Some(HashFailed);
      }
      account := account.(passwordHash := e1.hash(newPassword).value, mustResetPassword := false, updatedAt := e1.now);
      err := repo.Update(account, e2.disk);
    }
  }
}
