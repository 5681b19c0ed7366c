/** Referential integrity of the books over every run, and the facts about
    calls in flight it rests on. */
module Integrity {
  import opened Models
  import opened Sums
  import opened Ledger
  import opened Conservation

  ghost predicate KeysDistinct<T>(rows: seq<T>, key: T -> string) {
    forall i, j | 0 <= i < j < |rows| :: key(rows[i]) != key(rows[j])
  }

  ghost predicate IsWarehouse(users: seq<User>, id: string) {
    var u := Find(users, UserKey, id);
    u.Some? && u.value.role == WAREHOUSE
  }

  ghost predicate InDepartment(users: seq<User>, id: string, dept: string) {
    var u := Find(users, UserKey, id);
    u.Some? && u.value.departmentId == dept
  }

  ghost predicate ItemExists(items: seq<Item>, id: string) {
    Find(items, ItemKey, id).Some?
  }

  /** An issue names an existing item, a recipient whose stored department it
      carries, and a warehouse user who issued it. */
  ghost predicate IssueRefers(b: Books, tx: Transaction) {
    && ItemExists(b.items, tx.itemId)
    && InDepartment(b.users, tx.issuedToUserId, tx.departmentId)
    && IsWarehouse(b.users, tx.issuedByUserId)
    && 0 < tx.quantity
  }

  /** A return points to a recorded issue and carries its item and department,
      and was received by a warehouse user. */
  ghost predicate ReturnRefers(b: Books, r: Return) {
    var tx := Find(b.issues, IssueKey, r.transactionId);
    && tx.Some?
    && tx.value.itemId == r.itemId
    && tx.value.departmentId == r.departmentId
    && IsWarehouse(b.users, r.receivedByUserId)
    && 0 < r.quantityReturned
  }

  ghost predicate BooksOk(b: Books) {
    && KeysDistinct(b.items, ItemKey) && KeysDistinct(b.users, UserKey)
    && KeysDistinct(b.issues, IssueKey) && KeysDistinct(b.rets, ReturnKey)
    && NoNegativeStock(b.items)
    && (forall i | 0 <= i < |b.issues| :: IssueRefers(b, b.issues[i]))
    && (forall i | 0 <= i < |b.rets| :: ReturnRefers(b, b.rets[i]))
  }

  /** What a call in flight has already established about the books. */
  ghost predicate CallOk(b: Books, c: Call) {
    && (c.Issuing() ==> 0 < c.ia.qty)
    && (c.IssuerChecked? || c.RecipientRead? || c.StockChecked? || c.Debited? ==> IsWarehouse(b.users, c.ia.issuer))
    && (c.RecipientRead? || c.StockChecked? || c.Debited? ==> InDepartment(b.users, c.ia.recipient, c.dept))
    && (c.StockChecked? || c.Debited? ==> ItemExists(b.items, c.ia.itemId))
    && (c.Returning() ==> 0 < c.ra.qty)
    && (c.Returning() && !c.ReturnAsked? ==> Find(b.issues, IssueKey, c.ra.issueId) == Some(c.tx))
    && (c.ReceiverChecked? || c.BoundChecked? || c.Credited? ==> IsWarehouse(b.users, c.ra.receiver))
  }

  ghost predicate CallsOk(s: State) {
    forall i | 0 <= i < |s.calls| :: CallOk(s.books, s.calls[i])
  }

  ghost predicate Inv(s: State) {
    BooksOk(s.books) && CallsOk(s)
  }

  // ---- rows are only ever appended -------------------------------------------

  /** Later books: item rows keep their place and key, every other table only grows at the end. */
  ghost predicate Grows(b: Books, b': Books) {
    && |b.items| <= |b'.items| && (forall i | 0 <= i < |b.items| :: b'.items[i].id == b.items[i].id)
    && b.users <= b'.users && b.issues <= b'.issues && b.rets <= b'.rets
  }

  lemma StepGrows(b: Books, c: Call, e: Env)
    ensures Grows(b, Step(b, c, e).0)
  {
  }

  lemma NextGrows(s: State, a: Action)
    ensures Grows(s.books, Next(s, a).books)
  {
    if a.Advance? && a.call < |s.calls| {
      StepGrows(s.books, s.calls[a.call], a.env);
    }
  }

  lemma LookupsSurvive(b: Books, b': Books, userId: string, issueId: string, itemId: string)
    requires Grows(b, b')
    ensures Find(b.users, UserKey, userId).Some? ==> Find(b'.users, UserKey, userId) == Find(b.users, UserKey, userId)
    ensures Find(b.issues, IssueKey, issueId).Some? ==>
        Find(b'.issues, IssueKey, issueId) == Find(b.issues, IssueKey, issueId)
    ensures ItemExists(b.items, itemId) ==> ItemExists(b'.items, itemId)
  {
    if Find(b.users, UserKey, userId).Some? {
      FindStable(b.users, b'.users, UserKey, userId);
    }
    if Find(b.issues, IssueKey, issueId).Some? {
      FindStable(b.issues, b'.issues, IssueKey, issueId);
    }
    if ItemExists(b.items, itemId) {
      IndexStable(b.items, b'.items, ItemKey, itemId);
    }
  }

  lemma IssueRefersSurvives(b: Books, b': Books, tx: Transaction)
    requires Grows(b, b') && IssueRefers(b, tx)
    ensures IssueRefers(b', tx)
  {
    LookupsSurvive(b, b', tx.issuedToUserId, "", tx.itemId);
    LookupsSurvive(b, b', tx.issuedByUserId, "", "");
  }

  lemma ReturnRefersSurvives(b: Books, b': Books, r: Return)
    requires Grows(b, b') && ReturnRefers(b, r)
    ensures ReturnRefers(b', r)
  {
    LookupsSurvive(b, b', r.receivedByUserId, r.transactionId, "");
  }

  lemma CallOkSurvives(b: Books, b': Books, c: Call)
    requires Grows(b, b') && CallOk(b, c)
    ensures CallOk(b', c)
  {
    if c.Issuing() {
      LookupsSurvive(b, b', c.ia.issuer, "", c.ia.itemId);
      LookupsSurvive(b, b', c.ia.recipient, "", "");
    } else if c.Returning() {
      LookupsSurvive(b, b', c.ra.receiver, c.ra.issueId, "");
    }
  }

  lemma IssueReadKeepsCallOk(b: Books, c: Call, e: Env)
    requires CallOk(b, c) && (c.IssueAsked? || c.IssuerChecked? || c.RecipientRead?)
    ensures CallOk(b, Step(b, c, e).1)
  {
  }

  lemma IssueWriteKeepsCallOk(b: Books, c: Call, e: Env)
    requires CallOk(b, c) && (c.StockChecked? || c.Debited? || c.DebitStranded?)
    ensures CallOk(Step(b, c, e).0, Step(b, c, e).1)
  {
    StepGrows(b, c, e);
    CallOkSurvives(b, Step(b, c, e).0, c);
  }

  lemma ReturnStepKeepsCallOk(b: Books, c: Call, e: Env)
    requires CallOk(b, c) && c.Returning()
    ensures CallOk(Step(b, c, e).0, Step(b, c, e).1)
  {
    StepGrows(b, c, e);
    CallOkSurvives(b, Step(b, c, e).0, c);
  }

  lemma StepKeepsCallOk(b: Books, c: Call, e: Env)
    requires CallOk(b, c)
    ensures CallOk(Step(b, c, e).0, Step(b, c, e).1)
  {
    if c.IssueAsked? || c.IssuerChecked? || c.RecipientRead? {
      IssueReadKeepsCallOk(b, c, e);
    } else if c.Issuing() {
      IssueWriteKeepsCallOk(b, c, e);
    } else if c.Returning() {
      ReturnStepKeepsCallOk(b, c, e);
    }
  }

  lemma AppendKeepsKeysDistinct<T>(rows: seq<T>, key: T -> string, row: T, disk: Disk)
    requires KeysDistinct(rows, key) && Append(rows, key, row, disk).Success?
    ensures KeysDistinct(Append(rows, key, row, disk).value, key)
  {
    FindNone(rows, key, key(row));
  }

  /** The two appends; every other step touches at most item quantities. */
  lemma RecordIssueKeepsBooksOk(b: Books, c: Call, e: Env)
    requires BooksOk(b) && CallOk(b, c) && c.Debited? && Step(b, c, e).1.Issued?
    ensures BooksOk(Step(b, c, e).0)
  {
    var b' := Step(b, c, e).0;
    var row := IssueRow(c.ia, c.dept, c.itemName, e);
    AppendKeepsKeysDistinct(b.issues, IssueKey, row, e.disk);
    forall i | 0 <= i < |b'.issues| ensures IssueRefers(b', b'.issues[i]) {
      IssueRefersSurvives(b, b', b'.issues[i]) by { assert i == |b.issues| ==> b'.issues[i] == row; }
    }
    forall i | 0 <= i < |b'.rets| ensures ReturnRefers(b', b'.rets[i]) {
      ReturnRefersSurvives(b, b', b.rets[i]);
    }
  }

  lemma RecordReturnKeepsBooksOk(b: Books, c: Call, e: Env)
    requires BooksOk(b) && CallOk(b, c) && c.Credited? && Step(b, c, e).1.Returned?
    ensures BooksOk(Step(b, c, e).0)
  {
    var b' := Step(b, c, e).0;
    var row := ReturnRow(c.ra, c.tx, e);
    AppendKeepsKeysDistinct(b.rets, ReturnKey, row, e.disk);
    forall i | 0 <= i < |b'.issues| ensures IssueRefers(b', b'.issues[i]) {
      IssueRefersSurvives(b, b', b.issues[i]);
    }
    forall i | 0 <= i < |b'.rets| ensures ReturnRefers(b', b'.rets[i]) {
      ReturnRefersSurvives(b, b', b'.rets[i]) by { assert i == |b.rets| ==> b'.rets[i] == row; }
    }
  }

  /** Changes to the item and user tables only. */
  lemma TablesGrowKeepsBooksOk(b: Books, b': Books)
    requires BooksOk(b) && Grows(b, b') && b'.issues == b.issues && b'.rets == b.rets
    requires KeysDistinct(b'.items, ItemKey) && KeysDistinct(b'.users, UserKey) && NoNegativeStock(b'.items)
    ensures BooksOk(b')
  {
    forall i | 0 <= i < |b.issues| ensures IssueRefers(b', b.issues[i]) {
      IssueRefersSurvives(b, b', b.issues[i]);
    }
    forall i | 0 <= i < |b.rets| ensures ReturnRefers(b', b.rets[i]) {
      ReturnRefersSurvives(b, b', b.rets[i]);
    }
  }

  lemma QuantityStepKeepsBooksOk(b: Books, b': Books)
    requires BooksOk(b) && b' == b.(items := b'.items) && |b'.items| == |b.items|
    requires forall i | 0 <= i < |b.items| :: b'.items[i].id == b.items[i].id && 0 <= b'.items[i].quantity
    ensures BooksOk(b')
  {
    assert KeysDistinct(b'.items, ItemKey) by {
      assert forall i | 0 <= i < |b.items| :: ItemKey(b'.items[i]) == ItemKey(b.items[i]);
    }
    TablesGrowKeepsBooksOk(b, b');
  }

  lemma TakeStockKeepsBooksOk(b: Books, c: Call, e: Env)
    requires BooksOk(b) && c.StockChecked?
    ensures BooksOk(Step(b, c, e).0)
  {
    QuantityStepKeepsBooksOk(b, Step(b, c, e).0);
  }

  lemma PutBackKeepsBooksOk(b: Books, c: Call, e: Env)
    requires BooksOk(b) && c.BoundChecked?
    ensures BooksOk(Step(b, c, e).0)
  {
    QuantityStepKeepsBooksOk(b, Step(b, c, e).0);
  }

  lemma OtherStepsKeepBooks(b: Books, c: Call, e: Env)
    requires !c.StockChecked? && !c.BoundChecked?
    requires !(c.Debited? && Step(b, c, e).1.Issued?) && !(c.Credited? && Step(b, c, e).1.Returned?)
    ensures Step(b, c, e).0 == b
  {
  }

  lemma StepKeepsBooksOk(b: Books, c: Call, e: Env)
    requires BooksOk(b) && CallOk(b, c)
    ensures BooksOk(Step(b, c, e).0)
  {
    if c.StockChecked? {
      TakeStockKeepsBooksOk(b, c, e);
    } else if c.BoundChecked? {
      PutBackKeepsBooksOk(b, c, e);
    } else if c.Debited? && Step(b, c, e).1.Issued? {
      RecordIssueKeepsBooksOk(b, c, e);
    } else if c.Credited? && Step(b, c, e).1.Returned? {
      RecordReturnKeepsBooksOk(b, c, e);
    } else {
      OtherStepsKeepBooks(b, c, e);
    }
  }

  lemma AdvanceKeepsCallsOk(s: State, k: nat, e: Env)
    requires CallsOk(s) && k < |s.calls|
    ensures CallsOk(Next(s, Advance(k, e)))
  {
    var (b', c') := Step(s.books, s.calls[k], e);
    var s' := State(b', s.calls[k := c']);
    assert Next(s, Advance(k, e)) == s';
    StepGrows(s.books, s.calls[k], e);
    StepKeepsCallOk(s.books, s.calls[k], e);
    forall i | 0 <= i < |s'.calls| ensures CallOk(b', s'.calls[i]) {
      if i != k {
        CallOkSurvives(s.books, b', s.calls[i]);
      }
    }
  }

  lemma NextKeepsCallsOk(s: State, a: Action)
    requires CallsOk(s)
    ensures CallsOk(Next(s, a))
  {
    if a.Advance? {
      if a.call < |s.calls| {
        AdvanceKeepsCallsOk(s, a.call, a.env);
      }
    } else {
      var s' := Next(s, a);
      NextGrows(s, a);
      forall i | 0 <= i < |s'.calls| ensures CallOk(s'.books, s'.calls[i]) {
        if i < |s.calls| {
          CallOkSurvives(s.books, s'.books, s.calls[i]);
        }
      }
    }
  }

  lemma NextKeepsBooksOk(s: State, a: Action)
    requires Inv(s)
    ensures BooksOk(Next(s, a).books)
  {
    NextGrows(s, a);
    if a.Advance? && a.call < |s.calls| {
      StepKeepsBooksOk(s.books, s.calls[a.call], a.env);
    } else if a.AddItem? && ItemStored(s.books, a.item, a.disk) {
      AppendKeepsKeysDistinct(s.books.items, ItemKey, a.item, a.disk);
      TablesGrowKeepsBooksOk(s.books, Next(s, a).books);
    } else if a.AddUser? && Append(s.books.users, UserKey, a.user, a.disk).Success? {
      AppendKeepsKeysDistinct(s.books.users, UserKey, a.user, a.disk);
      TablesGrowKeepsBooksOk(s.books, Next(s, a).books);
    }
  }

  lemma NextKeepsInv(s: State, a: Action)
    requires Inv(s)
    ensures Inv(Next(s, a))
  {
    NextKeepsCallsOk(s, a);
    NextKeepsBooksOk(s, a);
  }

  /** REFERENTIAL INTEGRITY over all runs: every recorded return points to a
      recorded issue and shares its item and department; every issue names an
      existing item, warehouse issuer and recipient, and carries the recipient's
      stored department. Rows already written are never altered. */
  lemma {:induction false} BooksStayConsistent(s: State, run: seq<Action>)
    requires Inv(s)
    ensures Inv(Run(s, run)) && Grows(s.books, Run(s, run).books)
    decreases run
  {
    if run != [] {
      NextKeepsInv(s, run[0]);
      NextGrows(s, run[0]);
      BooksStayConsistent(Next(s, run[0]), run[1..]);
    }
  }

  // ---- the seed data -----------------------------------------------------------

  const SEED_DATE := "2026-03-01"

  function Seed(): Books {
    Books(
      [Item("ITEM-001", "Safety Helmet", "One Size", 25, SEED_DATE, "2027-03-01"),
       Item("ITEM-002", "Safety Gloves", "L", 50, SEED_DATE, "2027-03-01"),
       Item("ITEM-003", "Hi-Vis Vest", "M", 30, SEED_DATE, "2027-03-01")],
      [User("USR-001", "EMP-001", "Alice", "DEPT-001", "warehouse"),
       User("USR-002", "EMP-002", "Bob", "DEPT-002", "employee"),
       User("USR-003", "EMP-003", "Charlie", "DEPT-003", "employee")],
      [Transaction("TX-001", "ITEM-001", "Safety Helmet", 1, "USR-002", "USR-001", "DEPT-002", "2026-03-10 09:00:00"),
       Transaction("TX-002", "ITEM-002", "Safety Gloves", 2, "USR-003", "USR-001", "DEPT-003", "2026-03-12 10:30:00")],
      [])
  }

  /** The rows a fresh store starts with satisfy every starting assumption used here. */
  lemma SeedIsConsistent()
    ensures Inv(State(Seed(), []))
  {
    SeedKeysDistinct();
    SeedStock();
    SeedRowRefers(Seed(), 0, 1);
    SeedRowRefers(Seed(), 1, 2);
    TwoIssuesOk(Seed());
  }

  lemma SeedStock()
    ensures NoNegativeStock(Seed().items)
  {
  }

  lemma TwoIssuesOk(b: Books)
    requires KeysDistinct(b.items, ItemKey) && KeysDistinct(b.users, UserKey) && KeysDistinct(b.issues, IssueKey)
        && b.rets == []
    requires NoNegativeStock(b.items)
    requires |b.issues| == 2 && IssueRefers(b, b.issues[0]) && IssueRefers(b, b.issues[1])
    ensures Inv(State(b, []))
  {
    forall i | 0 <= i < |b.issues| ensures IssueRefers(b, b.issues[i]) {
      assert i == 0 || i == 1;
    }
  }

  lemma SeedKeysDistinct()
    ensures KeysDistinct(Seed().items, ItemKey) && KeysDistinct(Seed().users, UserKey)
        && KeysDistinct(Seed().issues, IssueKey)
  {
    var b := Seed();
    assert b.items[0].id[7] == '1' && b.items[1].id[7] == '2' && b.items[2].id[7] == '3';
    assert b.users[0].id[6] == '1' && b.users[1].id[6] == '2' && b.users[2].id[6] == '3';
    assert b.issues[0].id[5] == '1' && b.issues[1].id[5] == '2';
  }

  lemma SeedRowRefers(b: Books, i: nat, k: nat)
    requires b == Seed() && i < 2 && k == i + 1
    requires KeysDistinct(b.items, ItemKey) && KeysDistinct(b.users, UserKey)
    ensures IssueRefers(b, b.issues[i])
  {
    FindUnique(b.users, UserKey, 0);
    FindUnique(b.users, UserKey, k);
    FindUnique(b.items, ItemKey, i);
  }
}
