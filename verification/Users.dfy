/** Users: adding them with a normalised role, and finding them by name. The handlers
    turn names into IDs this way before they call the stock service. */
module Users {
  import opened Models
  import opened Texts
  import opened Sums
  import opened Ledger
  import opened Integrity
  import opened Records
  import opened Repositories

  // ---- adding users --------------------------------------------------------------------

  predicate KnownRole(role: string) { role == EMPLOYEE || role == WAREHOUSE }

  function Draft(t: Text, employeeId: string, name: string, departmentId: string, role: string, id: string): User {
    User(id, t.trim(employeeId), t.trim(name), t.trim(departmentId), t.trim(t.lower(role)))
  }

  function Objection(u: User): Option<Error> {
    if u.employeeId == "" then Some(EmployeeIdRequired)
    else if u.name == "" then Some(NameRequired)
    else if u.departmentId == "" then Some(DepartmentRequired)
    else if !KnownRole(u.role) then Some(RoleUnknown)
    else None
  }

  function AddedUser(users: seq<User>, u: User, disk: Disk): Result<seq<User>> {
    if Objection(u).Some? then Failure(Objection(u).value) else Append(users, UserKey, u, disk)
  }

  /** ADDING A USER, from the arguments: the answer case by case, and on success one row more,
      each field its own trimmed argument and the role in lower case. */
  lemma AdditionIs(t: Text, users: seq<User>, employeeId: string, name: string, departmentId: string, role: string,
                   id: string, disk: Disk)
    ensures
      var u := Draft(t, employeeId, name, departmentId, role, id);
      var r := AddedUser(users, u, disk);
      var known := t.trim(t.lower(role));
      r == (
        if t.trim(employeeId) == "" then Failure(EmployeeIdRequired)
        else if t.trim(name) == "" then Failure(NameRequired)
        else if t.trim(departmentId) == "" then Failure(DepartmentRequired)
        else if known != "employee" && known != "warehouse" then Failure(RoleUnknown)
        else if disk.ReadFails? then Failure(StorageFailed)
        else if exists x :: x in users && x.id == id then Failure(DuplicateId)
        else if disk.WriteFails? then Failure(StorageFailed)
        else Success(users + [User(id, t.trim(employeeId), t.trim(name), t.trim(departmentId), known)]))
  {
    FindNone(users, UserKey, id);
  }

  // ---- names -----------------------------------------------------------------------------

  predicate Bears(t: Text, u: User, name: string) { t.same(t.trim(u.name), t.trim(name)) }

  /** The index of the first user of that name, or the length. */
  function FirstNamed(t: Text, users: seq<User>, name: string): (k: nat)
    ensures k <= |users|
    ensures k < |users| ==> Bears(t, users[k], name)
  {
    if users == [] || Bears(t, users[0], name) then 0 else 1 + FirstNamed(t, users[1..], name)
  }

  lemma FirstNamedIsFirst(t: Text, users: seq<User>, name: string, k: nat)
    ensures k == FirstNamed(t, users, name) <==>
              && k <= |users|
              && (forall j | 0 <= j < k :: !Bears(t, users[j], name))
              && (k < |users| ==> Bears(t, users[k], name))
  {
    if users != [] && !Bears(t, users[0], name) && 0 < k {
      FirstNamedIsFirst(t, users[1..], name, k - 1);
      assert forall j | 1 <= j < k <= |users| :: users[j] == users[1..][j - 1];
      assert forall j | 0 <= j < k - 1 < |users| :: users[1..][j] == users[j + 1];
    }
  }

  function TryResolve(t: Text, users: seq<User>, name: string, disk: Disk): Option<string> {
    var k := FirstNamed(t, users, name);
    if t.trim(name) == "" || disk.ReadFails? || k == |users| then None else Some(users[k].id)
  }

  /** What one resolve-or-create needs from outside: the departments as read, the generated
      employee number, the fresh user ID and the disk at its two repository calls. */
  datatype Supplies = Supplies(departments: Result<seq<Department>>, employeeId: string, newId: string,
                               listing: Disk, adding: Disk)

  function Newcomer(t: Text, name: string, s: Supplies): Result<User> {
    if s.departments.Failure? then Failure(s.departments.error)
    else if s.departments.value == [] then Failure(NoDepartments)
    else Success(Draft(t, s.employeeId, t.trim(name), s.departments.value[0].id, WAREHOUSE, s.newId))
  }

  /** The second locked call: adding a user of a name that the listing did not show. */
  function AddNewcomer(t: Text, users: seq<User>, name: string, s: Supplies): (seq<User>, Result<string>) {
    var u := Newcomer(t, name, s);
    if u.Failure? then (users, Failure(u.error)) else
    var r := AddedUser(users, u.value, s.adding);
    if r.Failure? then (users, Failure(r.error)) else (r.value, Success(u.value.id))
  }

  /** A resolve-or-create that lists the users and, if it has to add one, finds `later`. */
  function ResolveBetween(t: Text, listed: seq<User>, later: seq<User>, name: string, s: Supplies)
    : (seq<User>, Result<string>)
  {
    if t.trim(name) == "" then (later, Failure(NameRequired))
    else if s.listing.ReadFails? then (later, Failure(StorageFailed)) else
    var k := FirstNamed(t, listed, name);
    if k < |listed| then
      (later, if t.same(t.trim(listed[k].role), WAREHOUSE) then Success(listed[k].id) else Failure(NotWarehouseStaff))
    else AddNewcomer(t, later, name, s)
  }

  /** The same with nothing in between. */
  function ResolveOrCreate(t: Text, users: seq<User>, name: string, s: Supplies): (seq<User>, Result<string>) {
    ResolveBetween(t, users, users, name, s)
  }

  /** RESOLVING, from the rows: the first user whose trimmed name is the same, up to case, as
      the trimmed one asked for. */
  lemma TryResolveIs(t: Text, users: seq<User>, name: string, disk: Disk, id: string)
    ensures TryResolve(t, users, name, disk) == Some(id) <==>
              && t.trim(name) != "" && !disk.ReadFails?
              && exists k ::
                   && 0 <= k < |users| && users[k].id == id && t.same(t.trim(users[k].name), t.trim(name))
                   && forall j | 0 <= j < k :: !t.same(t.trim(users[j].name), t.trim(name))
  {
    var k := FirstNamed(t, users, name);
    FirstNamedIsFirst(t, users, name, k);
    if i :| 0 <= i < |users| && users[i].id == id && t.same(t.trim(users[i].name), t.trim(name))
            && forall j | 0 <= j < i :: !t.same(t.trim(users[j].name), t.trim(name)) {
      FirstNamedIsFirst(t, users, name, i);
    }
  }

  /** RESOLVE OR CREATE, from the rows: the answer case by case. A newcomer gets the first
      listed department, the generated employee number and the warehouse role. */
  lemma ResolveOrCreateIs(t: Text, users: seq<User>, name: string, s: Supplies)
    requires TextLaws(t)
    ensures
      var (after, r) := ResolveOrCreate(t, users, name, s);
      var k := FirstNamed(t, users, name);
      if t.trim(name) == "" then r == Failure(NameRequired) && after == users
      else if s.listing.ReadFails? then r == Failure(StorageFailed) && after == users
      else if k < |users| then
        && after == users
        && r == if t.same(t.trim(users[k].role), "warehouse") then Success(users[k].id) else Failure(NotWarehouseStaff)
      else if s.departments.Failure? then r == Failure(s.departments.error) && after == users
      else if s.departments.value == [] then r == Failure(NoDepartments) && after == users
      else
        var dept := t.trim(s.departments.value[0].id);
        && (r.Success? <==>
              && t.trim(s.employeeId) != "" && dept != "" && s.adding.Works?
              && forall u | u in users :: u.id != s.newId)
        && (if r.Success? then
              r.value == s.newId
              && after == users + [User(s.newId, t.trim(s.employeeId), t.trim(name), dept, "warehouse")]
            else after == users)
  {
    if s.departments.Success? && s.departments.value != [] {
      AdditionIs(t, users, s.employeeId, t.trim(name), s.departments.value[0].id, WAREHOUSE, s.newId, s.adding);
    }
  }

  // ---- resolution is stable -----------------------------------------------------------------

  /** Once a name resolves, it resolves to the same ID in every later state of every run
      of the stock protocol, whatever users are added meanwhile. */
  lemma ResolutionIsStable(t: Text, s: State, run: seq<Action>, name: string, disk: Disk)
    requires TryResolve(t, s.books.users, name, Works).Some? && !disk.ReadFails?
    ensures TryResolve(t, Run(s, run).books.users, name, disk) == TryResolve(t, s.books.users, name, Works)
  {
    UsersOnlyAppended(s, run);
    NameKeepsIndex(t, s.books.users, Run(s, run).books.users, name);
  }

  lemma {:induction false} UsersOnlyAppended(s: State, run: seq<Action>)
    ensures s.books.users <= Run(s, run).books.users
    decreases run
  {
    if run != [] {
      NextGrows(s, run[0]);
      UsersOnlyAppended(Next(s, run[0]), run[1..]);
    }
  }

  lemma NameKeepsIndex(t: Text, users: seq<User>, later: seq<User>, name: string)
    requires users <= later && FirstNamed(t, users, name) < |users|
    ensures FirstNamed(t, later, name) == FirstNamed(t, users, name)
  {
    var k := FirstNamed(t, users, name);
    FirstNamedIsFirst(t, users, name, k);
    FirstNamedIsFirst(t, later, name, k);
  }

  /** A successful resolve-or-create leaves the name resolvable to the ID it returned, has
      added at most one user, and only if the name resolved to nobody. */
  lemma ResolveOrCreateResolves(t: Text, users: seq<User>, name: string, s: Supplies)
    requires TextLaws(t) && ResolveOrCreate(t, users, name, s).1.Success?
    ensures
      var (users', r) := ResolveOrCreate(t, users, name, s);
      && TryResolve(t, users', name, Works) == Some(r.value)
      && (users' == users || (TryResolve(t, users, name, Works).None? && |users'| == |users| + 1 && users <= users'))
      && t.same(t.trim(users'[FirstNamed(t, users', name)].role), WAREHOUSE)
  {
    var k := FirstNamed(t, users, name);
    if k == |users| {
      var (users', r) := ResolveOrCreate(t, users, name, s);
      FirstNamedIsFirst(t, users, name, k);
      FirstNamedIsFirst(t, users', name, k);
      assert users'[k].name == t.trim(t.trim(name));
    }
  }

  /** TWICE IS ONCE. Calling it again, after any run of the stock protocol in between and
      with any supplies, returns the same ID and adds nobody. */
  lemma ResolvingAgainAddsNobody(t: Text, users: seq<User>, name: string, first: Supplies, s: State, run: seq<Action>,
                                 second: Supplies)
    requires TextLaws(t) && ResolveOrCreate(t, users, name, first).1.Success?
    requires s.books.users == ResolveOrCreate(t, users, name, first).0 && !second.listing.ReadFails?
    ensures
      var later := Run(s, run).books.users;
      ResolveOrCreate(t, later, name, second) == (later, ResolveOrCreate(t, users, name, first).1)
  {
    ResolveOrCreateResolves(t, users, name, first);
    UsersOnlyAppended(s, run);
    NameKeepsIndex(t, s.books.users, Run(s, run).books.users, name);
  }

  // ---- two first requests for one name --------------------------------------------------------

  lemma AppendedIsFound(users: seq<User>, u: User, disk: Disk)
    requires Append(users, UserKey, u, disk).Success?
    ensures Find(users + [u], UserKey, u.id) == Some(u) && forall x | x in users :: x.id != u.id
  {
    FindNone(users, UserKey, u.id);
    forall j | 0 <= j < |users| ensures UserKey((users + [u])[j]) != u.id {
      assert users[j] in users;
    }
    IndexByIsFirst(users + [u], UserKey, u.id, |users|);
  }

  lemma FirstNamedAfter(t: Text, users: seq<User>, u: User, name: string)
    requires Bears(t, u, name)
    ensures FirstNamed(t, users + [u], name) == FirstNamed(t, users, name)
  {
    var k := FirstNamed(t, users, name);
    FirstNamedIsFirst(t, users, name, k);
    FirstNamedIsFirst(t, users + [u], name, k);
  }

  /** THE RACE, EXACTLY. With other calls in between, the ID returned is the one the name
      resolves to if and only if the listing showed the name or nobody of that name was added
      since. */
  lemma ReturnedIdResolvesIff(t: Text, listed: seq<User>, later: seq<User>, name: string, s: Supplies)
    requires TextLaws(t) && listed <= later && ResolveBetween(t, listed, later, name, s).1.Success?
    ensures
      var (after, r) := ResolveBetween(t, listed, later, name, s);
      TryResolve(t, after, name, Works) == Some(r.value)
      <==> FirstNamed(t, listed, name) < |listed| || FirstNamed(t, later, name) == |later|
  {
    if FirstNamed(t, listed, name) < |listed| {
      NameKeepsIndex(t, listed, later, name);
    } else {
      var u := Newcomer(t, name, s).value;
      AppendedIsFound(later, u, s.adding);
      FirstNamedAfter(t, later, u, name);
    }
  }

  /** Nobody has the name, and both callers can add a user with an ID of its own. */
  ghost predicate BothMayAdd(t: Text, users: seq<User>, name: string, s1: Supplies, s2: Supplies) {
    && t.trim(name) != "" && FirstNamed(t, users, name) == |users|
    && s1.listing.Works? && s2.listing.Works? && s1.adding.Works? && s2.adding.Works?
    && Newcomer(t, name, s1).Success? && Objection(Newcomer(t, name, s1).value).None?
    && Newcomer(t, name, s2).Success? && Objection(Newcomer(t, name, s2).value).None?
    && s1.newId != s2.newId && forall u | u in users :: u.id != s1.newId && u.id != s2.newId
  }

  /** Two callers that both list before either adds leave two users of the name, and the
      second caller with an ID the name does not resolve to. */
  lemma TwoFirstRequestsAddTwo(t: Text, users: seq<User>, name: string, s1: Supplies, s2: Supplies)
    requires TextLaws(t) && BothMayAdd(t, users, name, s1, s2)
    ensures
      var (after1, r1) := ResolveBetween(t, users, users, name, s1);
      var (after2, r2) := ResolveBetween(t, users, after1, name, s2);
      && r1 == Success(s1.newId) && r2 == Success(s2.newId) && |after2| == |users| + 2
      && TryResolve(t, after2, name, Works) == Some(s1.newId)
  {
    var u1, u2 := Newcomer(t, name, s1).value, Newcomer(t, name, s2).value;
    FindNone(users, UserKey, u1.id);
    FindNone(users + [u1], UserKey, u2.id);
    assert forall x | x in users + [u1] :: UserKey(x) != u2.id;
    FirstNamedAfter(t, users, u1, name);
    FirstNamedAfter(t, users + [u1], u2, name);
  }

  // ---- the role invariant ---------------------------------------------------------------------

  ghost predicate RolesKnown(users: seq<User>) { forall u | u in users :: KnownRole(u.role) }

  /** Every user added in the run went through the users service. */
  ghost predicate AddsKnownRoles(run: seq<Action>) {
    forall a | a in run && a.AddUser? :: Objection(a.user).None?
  }

  lemma StepKeepsUsers(b: Books, c: Call, e: Env)
    ensures Step(b, c, e).0.users == b.users
  {
  }

  lemma {:induction false} RolesStayKnown(s: State, run: seq<Action>)
    requires RolesKnown(s.books.users) && AddsKnownRoles(run)
    ensures RolesKnown(Run(s, run).books.users)
    decreases run
  {
    if run != [] {
      var a := run[0];
      assert a in run;
      if a.Advance? && a.call < |s.calls| {
        StepKeepsUsers(s.books, s.calls[a.call], a.env);
      }
      RolesStayKnown(Next(s, a), run[1..]);
    }
  }

  lemma AddedRolesAreKnown(t: Text, users: seq<User>, name: string, s: Supplies)
    requires RolesKnown(users)
    ensures RolesKnown(ResolveOrCreate(t, users, name, s).0)
  {
  }

  lemma ResolveOrCreateKeepsKeys(t: Text, users: seq<User>, name: string, s: Supplies)
    requires KeysDistinct(users, UserKey)
    ensures KeysDistinct(ResolveOrCreate(t, users, name, s).0, UserKey)
  {
    var u := Newcomer(t, name, s);
    if u.Success? && Append(users, UserKey, u.value, s.adding).Success? {
      AppendKeepsKeysDistinct(users, UserKey, u.value, s.adding);
    }
  }

  // ---- what the stock service makes of a resolved ID -------------------------------------------

  /** An ID that resolve-or-create returned passes the stock service's own role check
      exactly when the stored role is `warehouse` letter for letter. */
  lemma ResolvedPassesRoleCheckIff(t: Text, users: seq<User>, name: string, s: Supplies, b: Books, a: IssueArgs, e: Env)
    requires TextLaws(t) && KeysDistinct(users, UserKey)
    requires ResolveOrCreate(t, users, name, s).1 == Success(a.issuer)
    requires b.users == ResolveOrCreate(t, users, name, s).0 && !e.disk.ReadFails?
    ensures
      var k := FirstNamed(t, b.users, name);
      && k < |b.users|
      && CheckIssuer(b, a, e) == if b.users[k].role == WAREHOUSE then IssuerChecked(a) else Rejected(IssuerNotWarehouse)
  {
    ResolveOrCreateResolves(t, users, name, s);
    ResolveOrCreateKeepsKeys(t, users, name, s);
    FindUnique(b.users, UserKey, FirstNamed(t, b.users, name));
  }

  /** The name check ignores case and spaces but the stock service does not, so a role
      stored as "Warehouse" resolves and is then refused. */
  lemma CapitalisedRoleIsRefused(t: Text, name: string, s: Supplies, b: Books, a: IssueArgs, e: Env)
    requires TextLaws(t) && t.same(t.trim("Warehouse"), WAREHOUSE) && t.trim(name) != ""
    requires b.users == [User("USR-9", "EMP-9", name, "DEPT-1", "Warehouse")]
    requires s.listing.Works? && e.disk.Works? && a.issuer == "USR-9"
    ensures ResolveOrCreate(t, b.users, name, s) == (b.users, Success("USR-9"))
    ensures CheckIssuer(b, a, e) == Rejected(IssuerNotWarehouse)
  {
    assert Bears(t, b.users[0], name);
    FindUnique(b.users, UserKey, 0);
  }

  /** WAREHOUSE STAFF STAY ACCEPTED. When every role is one the users service writes, a
      resolved ID passes the role checks of `IssueItem` and `ReturnItem`, at once and in every
      later state. */
  lemma ResolvedStaysAccepted(t: Text, users: seq<User>, name: string, sup: Supplies, s: State, run: seq<Action>,
                              ia: IssueArgs, ra: ReturnArgs, tx: Transaction, e: Env)
    requires TextLaws(t) && KeysDistinct(users, UserKey) && RolesKnown(users)
    requires s.books.users == ResolveOrCreate(t, users, name, sup).0
    requires ResolveOrCreate(t, users, name, sup).1 == Success(ia.issuer) && ra.receiver == ia.issuer
        && !e.disk.ReadFails?
    ensures CheckIssuer(Run(s, run).books, ia, e) == IssuerChecked(ia)
    ensures CheckReceiver(Run(s, run).books, ra, tx, e) == ReceiverChecked(ra, tx)
  {
    ResolveOrCreateResolves(t, users, name, sup);
    ResolveOrCreateKeepsKeys(t, users, name, sup);
    AddedRolesAreKnown(t, users, name, sup);
    var k := FirstNamed(t, s.books.users, name);
    assert s.books.users[k] in s.books.users;
    FindUnique(s.books.users, UserKey, k);
    UsersOnlyAppended(s, run);
    FindStable(s.books.users, Run(s, run).books.users, UserKey, ia.issuer);
  }

  // ---- the code -----------------------------------------------------------------------------------

  class UsersService {
    const text: Text
    const repo: Table<User>

    constructor (text: Text, repo: Table<User>)
      ensures this.text == text && this.repo == repo
    {
      this.text, this.repo := text, repo;
    }

    method AddUser(employeeId0: string, name0: string, departmentId0: string, role0: string, id: string, disk: Disk)
      returns (r: Result<User>)
      requires repo.Valid() && repo.codec == UserCodec
      modifies repo`file
      ensures
        var u := Draft(text, employeeId0, name0, departmentId0, role0, id);
        var added := AddedUser(old(repo.Rows()), u, old(repo.Seen(disk)));
        if added.Success? then r == Success(u) && repo.Rows() == added.value && repo.Parses()
        else r == Failure(added.error) && repo.file == old(repo.file)
    {
      var employeeId, name, departmentId := text.trim(employeeId0), text.trim(name0), text.trim(departmentId0);
      var role := text.trim(text.lower(role0));
      if employeeId == "" {
        return Failure(EmployeeIdRequired);
      }
      if name == "" {
        return Failure(NameRequired);
      }
      if departmentId == "" {
        return Failure(DepartmentRequired);
      }
      if role != EMPLOYEE && role != WAREHOUSE {
        return Failure(RoleUnknown);
      }
      var user := User(id, employeeId, name, departmentId, role);
      var e := repo.Add(user, disk);
      r := if e.Some? then Failure(e.value) else Success(user);
    }

    method TryResolveUserIDByName(name0: string, disk: Disk) returns (r: Option<string>)
      requires repo.Valid() && repo.codec == UserCodec
      ensures r == TryResolve(text, repo.Rows(), name0, repo.Seen(disk))
    {
      var name := text.trim(name0);
      if name == "" {
        return None;
      }
      var listed := repo.List(disk);
      if listed.Failure? {
        return None;
      }
      var users := listed.value;
      for i := 0 to |users|
        invariant forall j | 0 <= j < i :: !Bears(text, users[j], name0)
      {
        if text.same(text.trim(users[i].name), name) {
          FirstNamedIsFirst(text, users, name0, i);
          return Some(users[i].id);
        }
      }
      FirstNamedIsFirst(text, users, name0, |users|);
      r := None;
    }

    ghost function Met(s: Supplies): Supplies
      reads repo
    {
      s.(listing := repo.Seen(s.listing), adding := repo.Seen(s.adding))
    }

    method ResolveOrCreateWarehouseUserByName(name0: string, s: Supplies) returns (r: Result<string>)
      requires repo.Valid() && repo.codec == UserCodec
      modifies repo`file
      ensures (repo.Rows(), r) == ResolveOrCreate(text, old(repo.Rows()), name0, old(Met(s)))
    {
      var name := text.trim(name0);
      if name == "" {
        return Failure(NameRequired);
      }
      var listed := repo.List(s.listing);
      if listed.Failure? {
        return Failure(listed.error);
      }
      var users := listed.value;
      for i := 0 to |users|
        invariant repo.file == old(repo.file)
        invariant forall j | 0 <= j < i :: !Bears(text, users[j], name0)
      {
        if text.same(text.trim(users[i].name), name) {
          FirstNamedIsFirst(text, users, name0, i);
          if text.same(text.trim(users[i].role), WAREHOUSE) {
            return Success(users[i].id);
          }
          return Failure(NotWarehouseStaff);
        }
      }
      FirstNamedIsFirst(text, users, name0, |users|);
      if s.departments.Failure? {
        return Failure(s.departments.error);
      }
      if s.departments.value == [] {
        return Failure(NoDepartments);
      }
      var u := AddUser(s.employeeId, name, s.departments.value[0].id, WAREHOUSE, s.newId, s.adding);
      r := if u.Failure? then Failure(u.error) else Success(u.value.id);
    }
  }
}
