/** The stock ledger as an interleaved protocol.

    Every repository call runs under one shared mutex, but a service call makes
    several of them, so the unit of interleaving is one repository call. `Next`
    takes any such unit from any call in flight; a run is any sequence of them.
    Integers are exact here; module Machine has the same steps in 64 bits. */
module Ledger {
  import opened Models
  import opened Sums

  const ItemKey: Item -> string := (it: Item) => it.id
  const UserKey: User -> string := (u: User) => u.id
  const IssueKey: Transaction -> string := (tx: Transaction) => tx.id
  const ReturnKey: Return -> string := (r: Return) => r.id

  // ---- what each repository call does -----------------------------------

  function Debit(items: seq<Item>, id: string, qty: int, disk: Disk): Result<(seq<Item>, Item)> {
    if disk.ReadFails? then Failure(StorageFailed) else
    var k := IndexBy(items, ItemKey, id);
    if k == |items| then Failure(ItemNotFound)
    else if qty < 0 then Failure(NegativeQuantity)
    else if items[k].quantity - qty < 0 then Failure(InsufficientStock)
    else if disk.WriteFails? then Failure(StorageFailed)
    else
      var it := items[k].(quantity := items[k].quantity - qty);
      Success((items[k := it], it))
  }

  function Credit(items: seq<Item>, id: string, qty: int, disk: Disk): Result<seq<Item>> {
    if qty < 0 then Failure(NegativeQuantity)
    else if disk.ReadFails? then Failure(StorageFailed) else
    var k := IndexBy(items, ItemKey, id);
    if k == |items| then Failure(ItemNotFound)
    else if disk.WriteFails? then Failure(StorageFailed)
    else Success(items[k := items[k].(quantity := items[k].quantity + qty)])
  }

  /** The `Add` of every repository: append unless the key is taken. */
  function Append<T>(rows: seq<T>, key: T -> string, row: T, disk: Disk): Result<seq<T>> {
    if disk.ReadFails? then Failure(StorageFailed)
    else if Find(rows, key, key(row)).Some? then Failure(DuplicateId)
    else if disk.WriteFails? then Failure(StorageFailed)
    else Success(rows + [row])
  }

  /** Row k's quantity changed by `n`; no other field and no other row did. */
  ghost predicate OneQuantityMoved(items: seq<Item>, after: seq<Item>, k: nat, n: int)
    requires k < |items|
  {
    && |after| == |items|
    && (forall j | 0 <= j < |items| && j != k :: after[j] == items[j])
    && after[k] == Item(items[k].id, items[k].name, items[k].size, items[k].quantity + n,
                        items[k].issueDate, items[k].expiryDate)
  }

  /** DEBIT AND CREDIT, from the rows: when each succeeds, the error otherwise, and that a
      movement touches one quantity and nothing else. */
  lemma MovementsAreExact(items: seq<Item>, id: string, qty: int)
    ensures
      var k, r := IndexBy(items, ItemKey, id), Debit(items, id, qty, Works);
      if k == |items| then r == Failure(ItemNotFound)
      else if qty < 0 then r == Failure(NegativeQuantity)
      else if items[k].quantity < qty then r == Failure(InsufficientStock)
      else r.Success? && OneQuantityMoved(items, r.value.0, k, -qty) && r.value.1 == r.value.0[k]
    ensures
      var k, r := IndexBy(items, ItemKey, id), Credit(items, id, qty, Works);
      if qty < 0 then r == Failure(NegativeQuantity)
      else if k == |items| then r == Failure(ItemNotFound)
      else r.Success? && OneQuantityMoved(items, r.value, k, qty)
  {
  }

  /** A disk that fails is told as such, unless the movement is refused for itself. */
  lemma FailingMovements(items: seq<Item>, id: string, qty: int)
    ensures Debit(items, id, qty, ReadFails) == Failure(StorageFailed)
    ensures Credit(items, id, qty, ReadFails) == if qty < 0 then Failure(NegativeQuantity) else Failure(StorageFailed)
    ensures
      var r := Debit(items, id, qty, Works);
      Debit(items, id, qty, WriteFails) == if r.Success? then Failure(StorageFailed) else Failure(r.error)
    ensures
      var r := Credit(items, id, qty, Works);
      Credit(items, id, qty, WriteFails) == if r.Success? then Failure(StorageFailed) else Failure(r.error)
  {
  }

  // ---- the state ----------------------------------------------------------

  datatype Books = Books(items: seq<Item>, users: seq<User>, issues: seq<Transaction>, rets: seq<Return>)

  datatype IssueArgs = IssueArgs(itemId: string, qty: int, recipient: string, issuer: string)

  datatype ReturnArgs = ReturnArgs(issueId: string, qty: int, returner: string, receiver: string)

  /** A service call, at one of the points between two repository calls. */
  datatype Call =
    | IssueAsked(ia: IssueArgs)
    | IssuerChecked(ia: IssueArgs)
    | RecipientRead(ia: IssueArgs, dept: string)
    | StockChecked(ia: IssueArgs, dept: string, itemName: string)
    | Debited(ia: IssueArgs, dept: string, itemName: string)
    | Issued(issue: Transaction)
    | ReturnAsked(ra: ReturnArgs)
    | IssueFound(ra: ReturnArgs, tx: Transaction)
    | ReceiverChecked(ra: ReturnArgs, tx: Transaction)
    | BoundChecked(ra: ReturnArgs, tx: Transaction)
    | Credited(ra: ReturnArgs, tx: Transaction)
    | Returned(ret: Return)
    | Rejected(error: Error)
    | DebitStranded(ia: IssueArgs, error: Error)
    | CreditStranded(ra: ReturnArgs, tx: Transaction, error: Error)
  {
    predicate Done() {
      Issued? || Returned? || Rejected? || DebitStranded? || CreditStranded?
    }

    predicate Issuing() {
      IssueAsked? || IssuerChecked? || RecipientRead? || StockChecked? || Debited? || DebitStranded?
    }

    predicate Returning() {
      ReturnAsked? || IssueFound? || ReceiverChecked? || BoundChecked? || Credited? || CreditStranded?
    }

    /** How many repository calls are still to come, at most. */
    function Left(): nat {
      if IssueAsked? || ReturnAsked? then 5
      else if IssuerChecked? || IssueFound? then 4
      else if RecipientRead? || ReceiverChecked? then 3
      else if StockChecked? || BoundChecked? then 2
      else if Debited? || Credited? then 1
      else 0
    }
  }

  /** The outside world at one repository call: the disk, and the fresh ID and
      clock reading used if the call appends a row. */
  datatype Env = Env(disk: Disk, id: string, now: string)

  // ---- one repository call of one service call ---------------------------

  function StartIssue(a: IssueArgs): Call {
    if a.recipient == "" then Rejected(IssuedToRequired)
    else if a.issuer == "" then Rejected(IssuedByRequired)
    else if a.qty <= 0 then Rejected(QuantityNotPositive)
    else if a.itemId == "" then Rejected(ItemIdRequired)
    else IssueAsked(a)
  }

  function StartReturn(a: ReturnArgs): Call {
    if a.issueId == "" then Rejected(TransactionIdRequired)
    else if a.qty <= 0 then Rejected(QuantityNotPositive)
    else if a.returner == "" then Rejected(ReturnedByRequired)
    else if a.receiver == "" then Rejected(ReceivedByRequired)
    else ReturnAsked(a)
  }

  ghost function ReturnedForW(issueId: string): Return -> int {
    (r: Return) => if r.transactionId == issueId then r.quantityReturned else 0
  }

  function IssueRow(a: IssueArgs, dept: string, itemName: string, e: Env): Transaction {
    Transaction(e.id, a.itemId, itemName, a.qty, a.recipient, a.issuer, dept, e.now)
  }

  function ReturnRow(a: ReturnArgs, tx: Transaction, e: Env): Return {
    Return(e.id, a.issueId, tx.itemId, a.qty, a.returner, a.receiver, tx.departmentId, e.now)
  }

  function CheckIssuer(b: Books, a: IssueArgs, e: Env): Call {
    if e.disk.ReadFails? then Rejected(StorageFailed) else
    match Find(b.users, UserKey, a.issuer)
    case None => Rejected(IssuerNotFound)
    case Some(u) => if u.role != WAREHOUSE then Rejected(IssuerNotWarehouse) else IssuerChecked(a)
  }

  function ReadRecipient(b: Books, a: IssueArgs, e: Env): Call {
    if e.disk.ReadFails? then Rejected(StorageFailed) else
    match Find(b.users, UserKey, a.recipient)
    case None => Rejected(RecipientNotFound)
    case Some(u) => RecipientRead(a, u.departmentId)
  }

  function CheckStock(b: Books, a: IssueArgs, dept: string, e: Env): Call {
    if e.disk.ReadFails? then Rejected(StorageFailed) else
    match Find(b.items, ItemKey, a.itemId)
    case None => Rejected(ItemNotFound)
    case Some(it) =>
      if a.qty > it.quantity then Rejected(NotEnoughStock(it.quantity, a.qty)) else StockChecked(a, dept, it.name)
  }

  function TakeStock(b: Books, a: IssueArgs, dept: string, itemName: string, e: Env): (Books, Call) {
    match Debit(b.items, a.itemId, a.qty, e.disk)
    case Failure(err) => (b, Rejected(err))
    case Success(p) => (b.(items := p.0), Debited(a, dept, itemName))
  }

  function RecordIssue(b: Books, a: IssueArgs, dept: string, itemName: string, e: Env): (Books, Call) {
    var row := IssueRow(a, dept, itemName, e);
    match Append(b.issues, IssueKey, row, e.disk)
    case Failure(err) => (b, DebitStranded(a, err))
    case Success(issues) => (b.(issues := issues), Issued(row))
  }

  function FindIssue(b: Books, a: ReturnArgs, e: Env): Call {
    if e.disk.ReadFails? then Rejected(StorageFailed) else
    match Find(b.issues, IssueKey, a.issueId)
    case None => Rejected(TransactionNotFound)
    case Some(tx) => IssueFound(a, tx)
  }

  function CheckReceiver(b: Books, a: ReturnArgs, tx: Transaction, e: Env): Call {
    if e.disk.ReadFails? then Rejected(StorageFailed) else
    match Find(b.users, UserKey, a.receiver)
    case None => Rejected(ReceiverNotFound)
    case Some(u) => if u.role != WAREHOUSE then Rejected(ReceiverNotWarehouse) else ReceiverChecked(a, tx)
  }

  /** Lists the returns of the issue and adds them up. */
  ghost function CheckBound(b: Books, a: ReturnArgs, tx: Transaction, e: Env): Call {
    if e.disk.ReadFails? then Rejected(StorageFailed)
    else if Sum(b.rets, ReturnedForW(a.issueId)) + a.qty > tx.quantity then Rejected(ReturnExceedsIssue)
    else BoundChecked(a, tx)
  }

  function PutBack(b: Books, a: ReturnArgs, tx: Transaction, e: Env): (Books, Call) {
    match Credit(b.items, tx.itemId, a.qty, e.disk)
    case Failure(err) => (b, Rejected(err))
    case Success(items) => (b.(items := items), Credited(a, tx))
  }

  function RecordReturn(b: Books, a: ReturnArgs, tx: Transaction, e: Env): (Books, Call) {
    var row := ReturnRow(a, tx, e);
    match Append(b.rets, ReturnKey, row, e.disk)
    case Failure(err) => (b, CreditStranded(a, tx, err))
    case Success(rets) => (b.(rets := rets), Returned(row))
  }

  ghost function Step(b: Books, c: Call, e: Env): (Books, Call) {
    match c
    case IssueAsked(a) => (b, CheckIssuer(b, a, e))
    case IssuerChecked(a) => (b, ReadRecipient(b, a, e))
    case RecipientRead(a, dept) => (b, CheckStock(b, a, dept, e))
    case StockChecked(a, dept, itemName) => TakeStock(b, a, dept, itemName, e)
    case Debited(a, dept, itemName) => RecordIssue(b, a, dept, itemName, e)
    case ReturnAsked(a) => (b, FindIssue(b, a, e))
    case IssueFound(a, tx) => (b, CheckReceiver(b, a, tx, e))
    case ReceiverChecked(a, tx) => (b, CheckBound(b, a, tx, e))
    case BoundChecked(a, tx) => PutBack(b, a, tx, e)
    case Credited(a, tx) => RecordReturn(b, a, tx, e)
    case _ => (b, c)
  }

  // ---- runs ---------------------------------------------------------------

  datatype State = State(books: Books, calls: seq<Call>)

  datatype Action =
    | BeginIssue(ia: IssueArgs)
    | BeginReturn(ra: ReturnArgs)
    | AddItem(item: Item, disk: Disk)
    | AddUser(user: User, disk: Disk)
    | Advance(call: nat, env: Env)

  /** `AddItem` of the items service only ever stores a positive quantity. */
  predicate ItemStored(b: Books, item: Item, disk: Disk) {
    0 < item.quantity && Append(b.items, ItemKey, item, disk).Success?
  }

  ghost function Next(s: State, a: Action): State {
    match a
    case BeginIssue(ia) => s.(calls := s.calls + [StartIssue(ia)])
    case BeginReturn(ra) => s.(calls := s.calls + [StartReturn(ra)])
    case AddItem(item, disk) =>
      if ItemStored(s.books, item, disk) then s.(books := s.books.(items := s.books.items + [item])) else s
    case AddUser(user, disk) =>
      (match Append(s.books.users, UserKey, user, disk)
       case Failure(_) => s
       case Success(users) => s.(books := s.books.(users := users)))
    case Advance(i, e) =>
      if i < |s.calls| then
        var (b, c) := Step(s.books, s.calls[i], e);
        State(b, s.calls[i := c])
      else s
  }

  ghost function Run(s: State, run: seq<Action>): State
    decreases run
  {
    if run == [] then s else Run(Next(s, run[0]), run[1..])
  }

  lemma RunCons(s: State, a: Action, rest: seq<Action>)
    ensures Run(s, [a] + rest) == Run(Next(s, a), rest)
  {
    assert ([a] + rest)[1..] == rest;
  }

  lemma {:induction false} RunConcat(s: State, r1: seq<Action>, r2: seq<Action>)
    ensures Run(s, r1 + r2) == Run(Run(s, r1), r2)
    decreases r1
  {
    if r1 == [] {
      assert r1 + r2 == r2;
    } else {
      assert (r1 + r2)[1..] == r1[1..] + r2;
      RunConcat(Next(s, r1[0]), r1[1..], r2);
    }
  }
}
