/** `TransactionsService`: the issue and return operations as the code runs them,
    one repository call after another, proved to be one path of the interleaved
    protocol, in the arithmetic of the machine. */
module StockService {
  import opened Models
  import opened Sums
  import opened Ledger
  import opened Records
  import opened Machine
  import opened Repositories
  import opened Integrity
  import opened PartialReturns
  import opened Ordering

  // ---- a call that is never interrupted --------------------------------------

  lemma StepDescends(ar: Arithmetic, b: Books, c: Call, e: Env)
    requires !c.Done()
    ensures StepIn(ar, b, c, e).1.Left() < c.Left()
  {
  }

  /** Runs a call to its end. `disk(n)` is what happens at the repository call
      that has `n - 1` more to follow. */
  ghost function Finish(ar: Arithmetic, b: Books, c: Call, disk: nat -> Disk, id: string, now: string): (Books, Call)
    decreases c.Left()
  {
    if c.Done() then (b, c) else
    var e := Env(disk(c.Left()), id, now);
    StepDescends(ar, b, c, e);
    var (b', c') := StepIn(ar, b, c, e);
    Finish(ar, b', c', disk, id, now)
  }

  lemma FinishStep(ar: Arithmetic, b: Books, c: Call, disk: nat -> Disk, id: string, now: string)
    requires !c.Done()
    ensures
      var p := StepIn(ar, b, c, Env(disk(c.Left()), id, now));
      && Finish(ar, b, c, disk, id, now) == Finish(ar, p.0, p.1, disk, id, now)
      && (p.1.Done() ==> Finish(ar, b, c, disk, id, now) == p)
  {
    StepDescends(ar, b, c, Env(disk(c.Left()), id, now));
  }

  /** The argument tests and reads of an issue. */
  function IssueReads(b: Books, a: IssueArgs, disk: nat -> Disk, id: string, now: string): Call {
    var c0 := StartIssue(a);
    if c0.Rejected? then c0 else
    var c1 := CheckIssuer(b, a, Env(disk(5), id, now));
    if c1.Rejected? then c1 else
    var c2 := ReadRecipient(b, a, Env(disk(4), id, now));
    if c2.RecipientRead? then CheckStock(b, a, c2.dept, Env(disk(3), id, now)) else c2
  }

  lemma FinishIssueReads(ar: Arithmetic, b: Books, a: IssueArgs, disk: nat -> Disk, id: string, now: string)
    ensures Finish(ar, b, StartIssue(a), disk, id, now) == Finish(ar, b, IssueReads(b, a, disk, id, now), disk, id, now)
  {
    var c0 := StartIssue(a);
    if !c0.Rejected? {
      FinishStep(ar, b, c0, disk, id, now);
      var c1 := CheckIssuer(b, a, Env(disk(5), id, now));
      if !c1.Rejected? {
        FinishStep(ar, b, c1, disk, id, now);
        var c2 := ReadRecipient(b, a, Env(disk(4), id, now));
        if c2.RecipientRead? {
          FinishStep(ar, b, c2, disk, id, now);
        }
      }
    }
  }

  /** The argument tests and reads of a return. */
  ghost function ReturnReads(ar: Arithmetic, b: Books, a: ReturnArgs, disk: nat -> Disk, id: string,
                             now: string): Call {
    var c0 := StartReturn(a);
    if c0.Rejected? then c0 else
    var c1 := FindIssue(b, a, Env(disk(5), id, now));
    if !c1.IssueFound? then c1 else
    var c2 := CheckReceiver(b, a, c1.tx, Env(disk(4), id, now));
    if c2.ReceiverChecked? then CheckBoundIn(ar, b, a, c1.tx, Env(disk(3), id, now)) else c2
  }

  lemma FinishReceiverAndBound(ar: Arithmetic, b: Books, a: ReturnArgs, tx: Transaction, disk: nat -> Disk,
                               id: string, now: string)
    ensures
      var c := CheckReceiver(b, a, tx, Env(disk(4), id, now));
      Finish(ar, b, IssueFound(a, tx), disk, id, now)
      == Finish(ar, b, if c.ReceiverChecked? then CheckBoundIn(ar, b, a, tx, Env(disk(3), id, now)) else c,
                disk, id, now)
  {
    FinishStep(ar, b, IssueFound(a, tx), disk, id, now);
    FinishStep(ar, b, ReceiverChecked(a, tx), disk, id, now);
  }

  lemma FinishReturnReads(ar: Arithmetic, b: Books, a: ReturnArgs, disk: nat -> Disk, id: string, now: string)
    ensures Finish(ar, b, StartReturn(a), disk, id, now)
        == Finish(ar, b, ReturnReads(ar, b, a, disk, id, now), disk, id, now)
  {
    if !StartReturn(a).Rejected? {
      FinishStep(ar, b, ReturnAsked(a), disk, id, now);
      var c1 := FindIssue(b, a, Env(disk(5), id, now));
      if c1.IssueFound? {
        FinishReceiverAndBound(ar, b, a, c1.tx, disk, id, now);
      }
    }
  }

  /** What is left of an issue after its reads: debit, then append. */
  function IssueEnd(ar: Arithmetic, b: Books, a: IssueArgs, dept: string, itemName: string, disk: nat -> Disk,
                    id: string, now: string): (Books, Call) {
    var (b', c') := TakeStockIn(ar, b, a, dept, itemName, Env(disk(2), id, now));
    if c'.Debited? then RecordIssue(b', a, dept, itemName, Env(disk(1), id, now)) else (b', c')
  }

  lemma FinishIssue(ar: Arithmetic, b: Books, a: IssueArgs, dept: string, itemName: string, disk: nat -> Disk,
                    id: string, now: string)
    ensures Finish(ar, b, StockChecked(a, dept, itemName), disk, id, now)
        == IssueEnd(ar, b, a, dept, itemName, disk, id, now)
  {
    var c := StockChecked(a, dept, itemName);
    FinishStep(ar, b, c, disk, id, now);
    var (b', c') := StepIn(ar, b, c, Env(disk(2), id, now));
    if c'.Debited? {
      FinishStep(ar, b', c', disk, id, now);
    }
  }

  /** What is left of a return after its reads: credit, then append. */
  function ReturnEnd(ar: Arithmetic, b: Books, a: ReturnArgs, tx: Transaction, disk: nat -> Disk, id: string,
                     now: string): (Books, Call) {
    var (b', c') := PutBackIn(ar, b, a, tx, Env(disk(2), id, now));
    if c'.Credited? then RecordReturn(b', a, tx, Env(disk(1), id, now)) else (b', c')
  }

  lemma FinishReturn(ar: Arithmetic, b: Books, a: ReturnArgs, tx: Transaction, disk: nat -> Disk, id: string,
                     now: string)
    ensures Finish(ar, b, BoundChecked(a, tx), disk, id, now) == ReturnEnd(ar, b, a, tx, disk, id, now)
  {
    var c := BoundChecked(a, tx);
    FinishStep(ar, b, c, disk, id, now);
    var (b', c') := StepIn(ar, b, c, Env(disk(2), id, now));
    if c'.Credited? {
      FinishStep(ar, b', c', disk, id, now);
    }
  }

  ghost predicate Faultless(disk: nat -> Disk) { forall n :: disk(n).Works? }

  /** An uninterrupted call is a run of the protocol in which only that call moves. */
  lemma {:induction false} FinishIsARun(ar: Arithmetic, b: Books, calls: seq<Call>, c: Call,
                                        disk: nat -> Disk, id: string, now: string)
    returns (run: seq<Action>)
    ensures
      var (b', c') := Finish(ar, b, c, disk, id, now);
      && RunIn(ar, State(b, calls + [c]), run) == State(b', calls + [c']) && c'.Done()
      && (forall a | a in run :: a.Advance? && a.call == |calls| && (a.env.disk.Works? || !Faultless(disk)))
    decreases c.Left()
  {
    if c.Done() {
      run := [];
    } else {
      var e := Env(disk(c.Left()), id, now);
      StepDescends(ar, b, c, e);
      var (b', c') := StepIn(ar, b, c, e);
      var a := Advance(|calls|, e);
      assert (calls + [c])[|calls| := c'] == calls + [c'];
      var rest := FinishIsARun(ar, b', calls, c', disk, id, now);
      RunInCons(ar, State(b, calls + [c]), a, rest);
      run := [a] + rest;
    }
  }

  // ---- when an uninterrupted call succeeds, and what it leaves behind ----------------

  function NoFaults(): nat -> Disk { (n: nat) => Works }

  /** An undisturbed issue succeeds exactly when its arguments are filled in, the
      issuer is warehouse staff, the recipient exists, the stock suffices and the
      new ID is free; it then moves exactly the requested quantity into one row. */
  lemma IssueSucceedsIff(b: Books, a: IssueArgs, id: string, now: string)
    ensures
      var (b', c') := Finish(Exact, b, StartIssue(a), NoFaults(), id, now);
      var issuer, recipient := Find(b.users, UserKey, a.issuer), Find(b.users, UserKey, a.recipient);
      var item := Find(b.items, ItemKey, a.itemId);
      && (c'.Issued? <==>
            && a.recipient != "" && a.issuer != "" && a.itemId != "" && 0 < a.qty
            && issuer.Some? && issuer.value.role == WAREHOUSE && recipient.Some?
            && item.Some? && a.qty <= item.value.quantity
            && Find(b.issues, IssueKey, id).None?)
      && (c'.Issued? ==>
            && Debit(b.items, a.itemId, a.qty, Works).Success? && recipient.Some? && item.Some?
            && b' == b.(items := Debit(b.items, a.itemId, a.qty, Works).value.0, issues := b.issues + [c'.issue])
            && c'.issue == Transaction(id, a.itemId, item.value.name, a.qty,
                                       a.recipient, a.issuer, recipient.value.departmentId, now))
      && (c'.Rejected? ==> b' == b)
  {
    FinishIssueReads(Exact, b, a, NoFaults(), id, now);
    var c := IssueReads(b, a, NoFaults(), id, now);
    if c.StockChecked? {
      FinishIssue(Exact, b, a, c.dept, c.itemName, NoFaults(), id, now);
    }
  }

  /** An issue is the same on the machine while no stock is negative. */
  lemma IssueIsExact(b: Books, a: IssueArgs, disk: nat -> Disk, id: string, now: string)
    requires a.qty <= MAX_INT && StockInRange(b.items)
    ensures Finish(Wrapping, b, StartIssue(a), disk, id, now) == Finish(Exact, b, StartIssue(a), disk, id, now)
  {
    FinishIssueReads(Exact, b, a, disk, id, now);
    FinishIssueReads(Wrapping, b, a, disk, id, now);
    var c := IssueReads(b, a, disk, id, now);
    if c.StockChecked? {
      FinishIssue(Exact, b, a, c.dept, c.itemName, disk, id, now);
      FinishIssue(Wrapping, b, a, c.dept, c.itemName, disk, id, now);
      IssueEndIsExact(b, a, c.dept, c.itemName, disk, id, now);
    }
  }

  lemma IssueEndIsExact(b: Books, a: IssueArgs, dept: string, itemName: string, disk: nat -> Disk, id: string,
                        now: string)
    requires 0 <= a.qty <= MAX_INT && StockInRange(b.items)
    ensures IssueEnd(Wrapping, b, a, dept, itemName, disk, id, now)
        == IssueEnd(Exact, b, a, dept, itemName, disk, id, now)
  {
    DebitAgrees(b.items, a.itemId, a.qty, disk(2));
  }

  /** Both results of an undisturbed return, up to the bound check and the credit. */
  lemma ReturnEndsIn(ar: Arithmetic, b: Books, a: ReturnArgs, id: string, now: string)
    ensures
      var (b', c') := Finish(ar, b, StartReturn(a), NoFaults(), id, now);
      var tx, receiver := Find(b.issues, IssueKey, a.issueId), Find(b.users, UserKey, a.receiver);
      var e := Env(Works, id, now);
      && (c'.Returned? <==>
            && a.issueId != "" && a.returner != "" && a.receiver != "" && 0 < a.qty
            && tx.Some? && receiver.Some? && receiver.value.role == WAREHOUSE
            && CheckBoundIn(ar, b, a, tx.value, e).BoundChecked?
            && ItemExists(b.items, tx.value.itemId)
            && Find(b.rets, ReturnKey, id).None?)
      && (c'.Returned? ==>
            && tx.Some? && c'.ret == ReturnRow(a, tx.value, e)
            && b' == PutBackIn(ar, b, a, tx.value, e).0.(rets := b.rets + [c'.ret]))
      && (c'.Rejected? ==> b' == b)
  {
    FinishReturnReads(ar, b, a, NoFaults(), id, now);
    var c := ReturnReads(ar, b, a, NoFaults(), id, now);
    if c.BoundChecked? {
      FinishReturn(ar, b, a, c.tx, NoFaults(), id, now);
    }
  }

  /** An undisturbed return succeeds exactly when its arguments are filled in, the
      issue exists, the receiver is warehouse staff, recorded returns plus the
      quantity fit in the issue, the item still exists and the new ID is free. */
  lemma ReturnSucceedsIff(b: Books, a: ReturnArgs, id: string, now: string)
    ensures
      var (b', c') := Finish(Exact, b, StartReturn(a), NoFaults(), id, now);
      var tx, receiver := Find(b.issues, IssueKey, a.issueId), Find(b.users, UserKey, a.receiver);
      && (c'.Returned? <==>
            && a.issueId != "" && a.returner != "" && a.receiver != "" && 0 < a.qty
            && tx.Some? && receiver.Some? && receiver.value.role == WAREHOUSE
            && ReturnedFor(b, a.issueId) + a.qty <= tx.value.quantity
            && ItemExists(b.items, tx.value.itemId)
            && Find(b.rets, ReturnKey, id).None?)
      && (c'.Returned? ==>
            && tx.Some? && Credit(b.items, tx.value.itemId, a.qty, Works).Success?
            && b' == b.(items := Credit(b.items, tx.value.itemId, a.qty, Works).value, rets := b.rets + [c'.ret])
            && c'.ret == Return(id, a.issueId, tx.value.itemId, a.qty,
                                a.returner, a.receiver, tx.value.departmentId, now))
      && (c'.Rejected? ==> b' == b)
  {
    ReturnEndsIn(Exact, b, a, id, now);
  }

  /** The same on the machine: it also succeeds when recorded plus requested exceeds 64 bits. */
  lemma MachineReturnSucceedsIff(b: Books, a: ReturnArgs, id: string, now: string)
    requires a.qty <= MAX_INT && 0 <= ReturnedFor(b, a.issueId) <= MAX_INT
    requires forall tx | tx in b.issues :: 0 <= tx.quantity <= MAX_INT
    ensures
      var (b', c') := Finish(Wrapping, b, StartReturn(a), NoFaults(), id, now);
      var tx, receiver := Find(b.issues, IssueKey, a.issueId), Find(b.users, UserKey, a.receiver);
      var sum := ReturnedFor(b, a.issueId) + a.qty;
      && (c'.Returned? <==>
            && a.issueId != "" && a.returner != "" && a.receiver != "" && 0 < a.qty
            && tx.Some? && receiver.Some? && receiver.value.role == WAREHOUSE
            && (sum <= tx.value.quantity || MAX_INT < sum)
            && ItemExists(b.items, tx.value.itemId)
            && Find(b.rets, ReturnKey, id).None?)
      && (c'.Returned? ==>
            && tx.Some? && Credit64(b.items, tx.value.itemId, a.qty, Works).Success?
            && b' == b.(items := Credit64(b.items, tx.value.itemId, a.qty, Works).value, rets := b.rets + [c'.ret])
            && c'.ret == ReturnRow(a, tx.value, Env(Works, id, now)))
      && (c'.Rejected? ==> b' == b)
  {
    ReturnEndsIn(Wrapping, b, a, id, now);
    var tx := Find(b.issues, IssueKey, a.issueId);
    if tx.Some? && 0 < a.qty {
      BoundAgreesIff(b, a, tx.value, Env(Works, id, now));
    }
  }

  // ---- results ------------------------------------------------------------------

  function IssueOutcome(c: Call): Result<Transaction> {
    match c
    case Issued(tx) => Success(tx)
    case Rejected(err) => Failure(err)
    case DebitStranded(_, err) => Failure(err)
    case _ => Failure(StorageFailed)
  }

  function ReturnOutcome(c: Call): Result<Return> {
    match c
    case Returned(r) => Success(r)
    case Rejected(err) => Failure(err)
    case CreditStranded(_, _, err) => Failure(err)
    case _ => Failure(StorageFailed)
  }

  // ---- what the caller is told --------------------------------------------------------

  lemma {:induction false} FinishFaultless(ar: Arithmetic, b: Books, c: Call, disk: nat -> Disk, id: string,
                                           now: string)
    requires Faultless(disk)
    ensures Finish(ar, b, c, disk, id, now) == Finish(ar, b, c, NoFaults(), id, now)
    decreases c.Left()
  {
    if !c.Done() {
      var e := Env(disk(c.Left()), id, now);
      assert disk(c.Left()).Works?;
      StepDescends(ar, b, c, e);
      var (b', c') := StepIn(ar, b, c, e);
      FinishFaultless(ar, b', c', disk, id, now);
    }
  }

  /** Whatever the disk does, the caller of an issue is told of success exactly when the row
      is recorded, and is given that row. */
  lemma IssueToldIffRecorded(ar: Arithmetic, b: Books, a: IssueArgs, disk: nat -> Disk, id: string, now: string)
    ensures
      var (b', c') := Finish(ar, b, StartIssue(a), disk, id, now);
      var r := IssueOutcome(c');
      && b'.users == b.users && b'.rets == b.rets
      && b'.issues == if r.Success? then b.issues + [r.value] else b.issues
  {
    FinishIssueReads(ar, b, a, disk, id, now);
    var c := IssueReads(b, a, disk, id, now);
    if c.StockChecked? {
      FinishIssue(ar, b, a, c.dept, c.itemName, disk, id, now);
      IssueEndTold(ar, b, a, c.dept, c.itemName, disk, id, now);
    } else {
      IssueReadsEnd(b, a, disk, id, now);
      assert Finish(ar, b, c, disk, id, now) == (b, c);
    }
  }

  lemma IssueReadsEnd(b: Books, a: IssueArgs, disk: nat -> Disk, id: string, now: string)
    ensures IssueReads(b, a, disk, id, now).StockChecked? || IssueReads(b, a, disk, id, now).Rejected?
  {
  }

  lemma IssueEndTold(ar: Arithmetic, b: Books, a: IssueArgs, dept: string, itemName: string, disk: nat -> Disk,
                     id: string, now: string)
    ensures
      var (b', c') := IssueEnd(ar, b, a, dept, itemName, disk, id, now);
      var r := IssueOutcome(c');
      && b'.users == b.users && b'.rets == b.rets
      && b'.issues == if r.Success? then b.issues + [r.value] else b.issues
  {
  }

  lemma ReturnToldIffRecorded(ar: Arithmetic, b: Books, a: ReturnArgs, disk: nat -> Disk, id: string, now: string)
    ensures
      var (b', c') := Finish(ar, b, StartReturn(a), disk, id, now);
      var r := ReturnOutcome(c');
      && b'.users == b.users && b'.issues == b.issues
      && b'.rets == if r.Success? then b.rets + [r.value] else b.rets
  {
    FinishReturnReads(ar, b, a, disk, id, now);
    var c := ReturnReads(ar, b, a, disk, id, now);
    if c.BoundChecked? {
      FinishReturn(ar, b, a, c.tx, disk, id, now);
      ReturnEndTold(ar, b, a, c.tx, disk, id, now);
    } else {
      ReturnReadsEnd(ar, b, a, disk, id, now);
      assert Finish(ar, b, c, disk, id, now) == (b, c);
    }
  }

  lemma ReturnReadsEnd(ar: Arithmetic, b: Books, a: ReturnArgs, disk: nat -> Disk, id: string, now: string)
    ensures ReturnReads(ar, b, a, disk, id, now).BoundChecked? || ReturnReads(ar, b, a, disk, id, now).Rejected?
  {
  }

  lemma ReturnEndTold(ar: Arithmetic, b: Books, a: ReturnArgs, tx: Transaction, disk: nat -> Disk, id: string,
                      now: string)
    ensures
      var (b', c') := ReturnEnd(ar, b, a, tx, disk, id, now);
      var r := ReturnOutcome(c');
      && b'.users == b.users && b'.issues == b.issues
      && b'.rets == if r.Success? then b.rets + [r.value] else b.rets
  {
  }

  /** The answer to an undisturbed issue, case by case, and what is left of the stock: taken
      on success, and taken for nothing if the new ID is not free. */
  lemma IssueAnswer(b: Books, a: IssueArgs, id: string, now: string)
    ensures
      var (b', c') := Finish(Exact, b, StartIssue(a), NoFaults(), id, now);
      var issuer, recipient := Find(b.users, UserKey, a.issuer), Find(b.users, UserKey, a.recipient);
      var k := IndexBy(b.items, ItemKey, a.itemId);
      var r := IssueOutcome(c');
      && r == (
        if a.recipient == "" then Failure(IssuedToRequired)
        else if a.issuer == "" then Failure(IssuedByRequired)
        else if a.qty <= 0 then Failure(QuantityNotPositive)
        else if a.itemId == "" then Failure(ItemIdRequired)
        else if issuer.None? then Failure(IssuerNotFound)
        else if issuer.value.role != WAREHOUSE then Failure(IssuerNotWarehouse)
        else if recipient.None? then Failure(RecipientNotFound)
        else if k == |b.items| then Failure(ItemNotFound)
        else if b.items[k].quantity < a.qty then Failure(NotEnoughStock(b.items[k].quantity, a.qty))
        else if exists tx :: tx in b.issues && tx.id == id then Failure(DuplicateId)
        else Success(Transaction(id, a.itemId, b.items[k].name, a.qty,
                                 a.recipient, a.issuer, recipient.value.departmentId, now)))
      && (if r.Success? || r == Failure(DuplicateId)
          then k < |b.items| && OneQuantityMoved(b.items, b'.items, k, -a.qty)
          else b'.items == b.items)
  {
    FinishIssueReads(Exact, b, a, NoFaults(), id, now);
    IssueReadsAnswer(b, a, id, now);
    var c := IssueReads(b, a, NoFaults(), id, now);
    if c.StockChecked? {
      FinishIssue(Exact, b, a, c.dept, c.itemName, NoFaults(), id, now);
      IssueEndAnswer(b, a, c.dept, c.itemName, id, now);
    } else {
      assert Finish(Exact, b, c, NoFaults(), id, now) == (b, c);
    }
  }

  lemma IssueReadsAnswer(b: Books, a: IssueArgs, id: string, now: string)
    ensures
      var issuer, recipient := Find(b.users, UserKey, a.issuer), Find(b.users, UserKey, a.recipient);
      var k := IndexBy(b.items, ItemKey, a.itemId);
      IssueReads(b, a, NoFaults(), id, now) ==
        if a.recipient == "" then Rejected(IssuedToRequired)
        else if a.issuer == "" then Rejected(IssuedByRequired)
        else if a.qty <= 0 then Rejected(QuantityNotPositive)
        else if a.itemId == "" then Rejected(ItemIdRequired)
        else if issuer.None? then Rejected(IssuerNotFound)
        else if issuer.value.role != WAREHOUSE then Rejected(IssuerNotWarehouse)
        else if recipient.None? then Rejected(RecipientNotFound)
        else if k == |b.items| then Rejected(ItemNotFound)
        else if b.items[k].quantity < a.qty then Rejected(NotEnoughStock(b.items[k].quantity, a.qty))
        else StockChecked(a, recipient.value.departmentId, b.items[k].name)
  {
  }

  lemma IssueEndAnswer(b: Books, a: IssueArgs, dept: string, itemName: string, id: string, now: string)
    requires 0 < a.qty && Find(b.items, ItemKey, a.itemId).Some?
    requires a.qty <= Find(b.items, ItemKey, a.itemId).value.quantity
    ensures
      var (b', c') := IssueEnd(Exact, b, a, dept, itemName, NoFaults(), id, now);
      && OneQuantityMoved(b.items, b'.items, IndexBy(b.items, ItemKey, a.itemId), -a.qty)
      && IssueOutcome(c') == if exists tx :: tx in b.issues && tx.id == id then Failure(DuplicateId)
                             else Success(Transaction(id, a.itemId, itemName, a.qty, a.recipient, a.issuer, dept, now))
  {
    FindNone(b.issues, IssueKey, id);
    MovementsAreExact(b.items, a.itemId, a.qty);
  }

  /** The same for a return, whose stock is put back before the new ID turns out taken. */
  lemma ReturnAnswer(b: Books, a: ReturnArgs, id: string, now: string)
    ensures
      var (b', c') := Finish(Exact, b, StartReturn(a), NoFaults(), id, now);
      var tx, receiver := Find(b.issues, IssueKey, a.issueId), Find(b.users, UserKey, a.receiver);
      var k := if tx.Some? then IndexBy(b.items, ItemKey, tx.value.itemId) else |b.items|;
      var r := ReturnOutcome(c');
      && r == (
        if a.issueId == "" then Failure(TransactionIdRequired)
        else if a.qty <= 0 then Failure(QuantityNotPositive)
        else if a.returner == "" then Failure(ReturnedByRequired)
        else if a.receiver == "" then Failure(ReceivedByRequired)
        else if tx.None? then Failure(TransactionNotFound)
        else if receiver.None? then Failure(ReceiverNotFound)
        else if receiver.value.role != WAREHOUSE then Failure(ReceiverNotWarehouse)
        else if tx.value.quantity < ReturnedFor(b, a.issueId) + a.qty then Failure(ReturnExceedsIssue)
        else if k == |b.items| then Failure(ItemNotFound)
        else if exists x :: x in b.rets && x.id == id then Failure(DuplicateId)
        else Success(Return(id, a.issueId, tx.value.itemId, a.qty,
                            a.returner, a.receiver, tx.value.departmentId, now)))
      && (if r.Success? || r == Failure(DuplicateId)
          then k < |b.items| && OneQuantityMoved(b.items, b'.items, k, a.qty)
          else b'.items == b.items)
  {
    FinishReturnReads(Exact, b, a, NoFaults(), id, now);
    ReturnReadsAnswer(b, a, id, now);
    var c := ReturnReads(Exact, b, a, NoFaults(), id, now);
    if c.BoundChecked? {
      FinishReturn(Exact, b, a, c.tx, NoFaults(), id, now);
      ReturnEndAnswer(b, a, c.tx, id, now);
    } else {
      assert Finish(Exact, b, c, NoFaults(), id, now) == (b, c);
    }
  }

  lemma ReturnReadsAnswer(b: Books, a: ReturnArgs, id: string, now: string)
    ensures
      var tx, receiver := Find(b.issues, IssueKey, a.issueId), Find(b.users, UserKey, a.receiver);
      ReturnReads(Exact, b, a, NoFaults(), id, now) ==
        if a.issueId == "" then Rejected(TransactionIdRequired)
        else if a.qty <= 0 then Rejected(QuantityNotPositive)
        else if a.returner == "" then Rejected(ReturnedByRequired)
        else if a.receiver == "" then Rejected(ReceivedByRequired)
        else if tx.None? then Rejected(TransactionNotFound)
        else if receiver.None? then Rejected(ReceiverNotFound)
        else if receiver.value.role != WAREHOUSE then Rejected(ReceiverNotWarehouse)
        else if tx.value.quantity < ReturnedFor(b, a.issueId) + a.qty then Rejected(ReturnExceedsIssue)
        else BoundChecked(a, tx.value)
  {
  }

  lemma ReturnEndAnswer(b: Books, a: ReturnArgs, tx: Transaction, id: string, now: string)
    requires 0 < a.qty
    ensures
      var (b', c') := ReturnEnd(Exact, b, a, tx, NoFaults(), id, now);
      var k := IndexBy(b.items, ItemKey, tx.itemId);
      && (k < |b.items| ==> OneQuantityMoved(b.items, b'.items, k, a.qty))
      && (k == |b.items| ==> b' == b)
      && ReturnOutcome(c') == if k == |b.items| then Failure(ItemNotFound)
                              else if exists x :: x in b.rets && x.id == id then Failure(DuplicateId)
                              else Success(Return(id, a.issueId, tx.itemId, a.qty,
                                                  a.returner, a.receiver, tx.departmentId, now))
  {
    FindNone(b.rets, ReturnKey, id);
    MovementsAreExact(b.items, tx.itemId, a.qty);
  }

  /** Issue quantities and what is recorded as returned are what 64-bit integers can hold. */
  ghost predicate QuantitiesInRange(b: Books, issueId: string) {
    && 0 <= ReturnedFor(b, issueId) <= MAX_INT
    && forall tx | tx in b.issues :: 0 <= tx.quantity <= MAX_INT
  }

  /** The answer of the machine to an issue, for the contract of `IssueItem`. */
  lemma IssueIsTold(b: Books, a: IssueArgs, disk: nat -> Disk, id: string, now: string)
    requires a.qty <= MAX_INT
    ensures
      var (b', c') := Finish(Wrapping, b, StartIssue(a), disk, id, now);
      var r := IssueOutcome(c');
      var issuer, recipient := Find(b.users, UserKey, a.issuer), Find(b.users, UserKey, a.recipient);
      var item := Find(b.items, ItemKey, a.itemId);
      && b'.issues == b.issues + (if r.Success? then [r.value] else [])
      && (Faultless(disk) && StockInRange(b.items) ==>
            && (r.Success? <==>
                  && a.recipient != "" && a.issuer != "" && a.itemId != "" && 0 < a.qty
                  && issuer.Some? && issuer.value.role == WAREHOUSE && recipient.Some?
                  && item.Some? && a.qty <= item.value.quantity
                  && forall tx | tx in b.issues :: tx.id != id)
            && (r.Success? ==>
                  && recipient.Some? && item.Some?
                  && r.value == Transaction(id, a.itemId, item.value.name, a.qty,
                                            a.recipient, a.issuer, recipient.value.departmentId, now)))
  {
    IssueToldIffRecorded(Wrapping, b, a, disk, id, now);
    if Faultless(disk) && StockInRange(b.items) {
      FinishFaultless(Wrapping, b, StartIssue(a), disk, id, now);
      IssueIsExact(b, a, NoFaults(), id, now);
      IssueAnswer(b, a, id, now);
    }
  }

  /** The answer of the machine to a return, for the contract of `ReturnItem`. */
  lemma ReturnIsTold(b: Books, a: ReturnArgs, disk: nat -> Disk, id: string, now: string)
    requires a.qty <= MAX_INT
    ensures
      var (b', c') := Finish(Wrapping, b, StartReturn(a), disk, id, now);
      var r := ReturnOutcome(c');
      var tx, receiver := Find(b.issues, IssueKey, a.issueId), Find(b.users, UserKey, a.receiver);
      var sum := ReturnedFor(b, a.issueId) + a.qty;
      && b'.rets == b.rets + (if r.Success? then [r.value] else [])
      && (Faultless(disk) && QuantitiesInRange(b, a.issueId) ==>
            && (r.Success? <==>
                  && a.issueId != "" && a.returner != "" && a.receiver != "" && 0 < a.qty
                  && tx.Some? && receiver.Some? && receiver.value.role == WAREHOUSE
                  && (sum <= tx.value.quantity || MAX_INT < sum)
                  && ItemExists(b.items, tx.value.itemId)
                  && forall x | x in b.rets :: x.id != id)
            && (r.Success? ==>
                  && tx.Some?
                  && r.value == Return(id, a.issueId, tx.value.itemId, a.qty,
                                       a.returner, a.receiver, tx.value.departmentId, now)))
  {
    ReturnToldIffRecorded(Wrapping, b, a, disk, id, now);
    if Faultless(disk) && QuantitiesInRange(b, a.issueId) {
      FinishFaultless(Wrapping, b, StartReturn(a), disk, id, now);
      MachineReturnSucceedsIff(b, a, id, now);
      FindNone(b.rets, ReturnKey, id);
      ReturnToldIfDone(Finish(Wrapping, b, StartReturn(a), NoFaults(), id, now).1);
    }
  }

  lemma ReturnToldIfDone(c: Call)
    ensures ReturnOutcome(c).Success? <==> c.Returned?
    ensures c.Returned? ==> ReturnOutcome(c) == Success(c.ret)
  {
  }

  /** The summing loop of the bound check. */
  method TotalQuantity(rets: seq<Return>) returns (total: int)
    ensures total == WrapSum(rets, ReturnQty)
  {
    total := 0;
    for i := 0 to |rets|
      invariant total == WrapSum(rets[..i], ReturnQty)
    {
      assert rets[..i + 1][..i] == rets[..i];
      total := Wrap(total + rets[i].quantityReturned);
    }
    assert rets[..|rets|] == rets;
  }

  const StampKey: Transaction -> string := (tx: Transaction) => tx.timestamp

  // ---- the service ---------------------------------------------------------------

  class TransactionsService {
    const items: ItemsRepository
    const users: Table<User>
    const issues: Table<Transaction>
    const rets: Table<Return>

    ghost predicate Valid() {
      && items.table.codec == ItemCodec && users.codec == UserCodec
      && issues.codec == IssueCodec && rets.codec == ReturnCodec
      && items.table.Valid() && users.Valid() && issues.Valid() && rets.Valid()
    }

    /** What an issue meets at its five repository calls: a file that does not parse reads
        as a failing disk. */
    ghost function IssueDisk(disk: nat -> Disk): nat -> Disk
      reads items.table, users, issues
    {
      var u, i, t := users.Parses(), items.table.Parses(), issues.Parses();
      (n: nat) => if (n >= 4 && !u) || ((n == 3 || n == 2) && !i) || (n <= 1 && !t) then ReadFails else disk(n)
    }

    /** The same for a return. */
    ghost function ReturnDisk(disk: nat -> Disk): nat -> Disk
      reads items.table, users, issues, rets
    {
      var t, u, r, i := issues.Parses(), users.Parses(), rets.Parses(), items.table.Parses();
      (n: nat) =>
        if (n >= 5 && !t) || (n == 4 && !u) || ((n == 3 || n <= 1) && !r) || (n == 2 && !i) then ReadFails else disk(n)
    }

    /** The books the four files hold; a file that does not parse holds none. */
    ghost function OnFile(): Books
      reads items.table, users, issues, rets
    {
      Books(items.table.Rows(), users.Rows(), issues.Rows(), rets.Rows())
    }

    constructor (items: ItemsRepository, users: Table<User>, issues: Table<Transaction>, rets: Table<Return>)
      ensures this.items == items && this.users == users && this.issues == issues && this.rets == rets
    {
      this.items, this.users, this.issues, this.rets := items, users, issues, rets;
    }

    /** Every recorded issue, latest stamp first. */
    method List(disk: Disk) returns (r: Result<seq<Transaction>>)
      requires Valid()
      ensures r.Failure? <==> issues.Seen(disk).ReadFails?
      ensures r.Success? ==> multiset(r.value) == multiset(OnFile().issues) && SortedBy(r.value, StampKey, true)
      ensures r.Success? ==> forall i, j | 0 <= i < j < |r.value| :: StrLeq(r.value[j].timestamp, r.value[i].timestamp)
    {
      r := issues.List(disk);
      if r.Success? {
        var txs := Sort(r.value, StampKey, true);
        assert forall i, j | 0 <= i < j < |txs| :: InOrder(StampKey(txs[i]), StampKey(txs[j]), true);
        r := Success(txs);
      }
    }

    /** The argument tests and the three reads of `IssueItem`. */
    method ReadForIssue(a: IssueArgs, disk: nat -> Disk, ghost id: string, ghost now: string)
      returns (r: Result<(string, Item)>)
      requires Valid()
      ensures IssueReads(OnFile(), a, IssueDisk(disk), id, now)
           == if r.Success? then StockChecked(a, r.value.0, r.value.1.name) else Rejected(r.error)
    {
      if a.recipient == "" {
        return Failure(IssuedToRequired);
      }
      if a.issuer == "" {
        return Failure(IssuedByRequired);
      }
      if a.qty <= 0 {
        return Failure(QuantityNotPositive);
      }
      if a.itemId == "" {
        return Failure(ItemIdRequired);
      }

      var byUser := users.GetByID(a.issuer, disk(5));
      if byUser.Failure? {
        return Failure(byUser.error);
      }
      if byUser.value.None? {
        return Failure(IssuerNotFound);
      }
      if byUser.value.value.role != WAREHOUSE {
        return Failure(IssuerNotWarehouse);
      }

      var toUser := users.GetByID(a.recipient, disk(4));
      if toUser.Failure? {
        return Failure(toUser.error);
      }
      if toUser.value.None? {
        return Failure(RecipientNotFound);
      }
      var dept := toUser.value.value.departmentId;

      var found := items.table.GetByID(a.itemId, disk(3));
      if found.Failure? {
        return Failure(found.error);
      }
      if found.value.None? {
        return Failure(ItemNotFound);
      }
      var item := found.value.value;
      if a.qty > item.quantity {
        return Failure(NotEnoughStock(item.quantity, a.qty));
      }
      r := Success((dept, item));
    }

    method Take(a: IssueArgs, dept: string, item: Item, disk: Disk, ghost id: string, ghost now: string)
      returns (e: Option<Error>)
      requires Valid() && InRange(a.qty)
      modifies items.table`file
      ensures
        var (b, c) := TakeStock64(old(OnFile()), a, dept, item.name, Env(old(items.table.Seen(disk)), id, now));
        OnFile() == b && c == if e.Some? then Rejected(e.value) else Debited(a, dept, item.name)
    {
      var taken := items.DecreaseQuantityIfEnough(a.itemId, a.qty, disk);
      e := if taken.Failure? then Some(taken.error) else None;
    }

    method RecordIssued(a: IssueArgs, dept: string, item: Item, disk: Disk, id: string, now: string)
      returns (r: Result<Transaction>)
      requires Valid() && InRange(a.qty)
      modifies issues`file
      ensures
        var (b, c) := RecordIssue(old(OnFile()), a, dept, item.name, Env(old(issues.Seen(disk)), id, now));
        OnFile() == b && r == IssueOutcome(c)
    {
      var tx := Transaction(id, a.itemId, item.name, a.qty, a.recipient, a.issuer, dept, now);
      ghost var e0, before := Env(issues.Seen(disk), id, now), OnFile();
      assert IssueRow(a, dept, item.name, e0) == tx && IssueCodec.fits(tx);
      var e := issues.Add(tx, disk);
      assert OnFile() == before.(issues := issues.Rows());
      r := if e.Some? then Failure(e.value) else Success(tx);
    }

    /** The two writes of `IssueItem`. */
    method TakeAndRecord(a: IssueArgs, dept: string, item: Item, disk: nat -> Disk, id: string, now: string)
      returns (r: Result<Transaction>)
      requires Valid() && InRange(a.qty)
      modifies items.table`file, issues`file
      ensures
        var (b, c) := IssueEnd(Wrapping, old(OnFile()), a, dept, item.name, old(IssueDisk(disk)), id, now);
        OnFile() == b && r == IssueOutcome(c)
    {
      ghost var d := IssueDisk(disk);
      var e := Take(a, dept, item, disk(2), id, now);
      assert d(1) == issues.Seen(disk(1));
      if e.Some? {
        return Failure(e.value);
      }
      r := RecordIssued(a, dept, item, disk(1), id, now);
    }

    /** All five repository calls of `IssueItem`. */
    method Issue(a: IssueArgs, disk: nat -> Disk, id: string, now: string) returns (r: Result<Transaction>)
      requires Valid() && InRange(a.qty)
      modifies items.table`file, issues`file
      ensures
        var (b, c) := Finish(Wrapping, old(OnFile()), StartIssue(a), old(IssueDisk(disk)), id, now);
        OnFile() == b && r == IssueOutcome(c)
    {
      FinishIssueReads(Wrapping, OnFile(), a, IssueDisk(disk), id, now);
      var read := ReadForIssue(a, disk, id, now);
      if read.Failure? {
        return Failure(read.error);
      }
      var (dept, item) := read.value;
      FinishIssue(Wrapping, OnFile(), a, dept, item.name, IssueDisk(disk), id, now);
      r := TakeAndRecord(a, dept, item, disk, id, now);
    }

    /** Any disk: the caller is given the row that was recorded, or an error and none was.
        Undisturbed: success exactly under the rules, and the row in full. */
    method IssueItem(itemId: string, qty: int, recipient: string, issuer: string,
                     disk: nat -> Disk, id: string, now: string) returns (r: Result<Transaction>)
      requires Valid() && InRange(qty)
      modifies items.table`file, issues`file
      ensures
        var a := IssueArgs(itemId, qty, recipient, issuer);
        var (b, c) := Finish(Wrapping, old(OnFile()), StartIssue(a), old(IssueDisk(disk)), id, now);
        OnFile() == b && r == IssueOutcome(c)
      ensures OnFile().issues == old(OnFile().issues) + if r.Success? then [r.value] else []
      ensures Faultless(old(IssueDisk(disk))) && StockInRange(old(OnFile().items)) ==>
                var b := old(OnFile());
                var giver, taker := Find(b.users, UserKey, issuer), Find(b.users, UserKey, recipient);
                var item := Find(b.items, ItemKey, itemId);
                && (r.Success? <==>
                      && recipient != "" && issuer != "" && itemId != "" && 0 < qty
                      && giver.Some? && giver.value.role == WAREHOUSE && taker.Some?
                      && item.Some? && qty <= item.value.quantity
                      && forall tx | tx in b.issues :: tx.id != id)
                && (r.Success? ==>
                      && taker.Some? && item.Some?
                      && r.value == Transaction(id, itemId, item.value.name, qty,
                                                recipient, issuer, taker.value.departmentId, now))
    {
      var a := IssueArgs(itemId, qty, recipient, issuer);
      IssueIsTold(OnFile(), a, IssueDisk(disk), id, now);
      r := Issue(a, disk, id, now);
    }

    /** The argument tests and the three reads of `ReturnItem`. */
    method ReadForReturn(a: ReturnArgs, disk: nat -> Disk, ghost id: string, ghost now: string)
      returns (r: Result<Transaction>)
      requires Valid()
      ensures ReturnReads(Wrapping, OnFile(), a, ReturnDisk(disk), id, now)
           == if r.Success? then BoundChecked(a, r.value) else Rejected(r.error)
    {
      if a.issueId == "" {
        return Failure(TransactionIdRequired);
      }
      if a.qty <= 0 {
        return Failure(QuantityNotPositive);
      }
      if a.returner == "" {
        return Failure(ReturnedByRequired);
      }
      if a.receiver == "" {
        return Failure(ReceivedByRequired);
      }

      var found := issues.GetByID(a.issueId, disk(5));
      if found.Failure? {
        return Failure(found.error);
      }
      if found.value.None? {
        return Failure(TransactionNotFound);
      }
      var tx := found.value.value;

      var e := CheckReceivingUser(a, tx, disk(4), id, now);
      if e.Some? {
        return Failure(e.value);
      }

      e := CheckPartialReturns(a, tx, disk(3), id, now);
      r := if e.Some? then Failure(e.value) else Success(tx);
    }

    method CheckReceivingUser(a: ReturnArgs, tx: Transaction, disk: Disk, ghost id: string, ghost now: string)
      returns (e: Option<Error>)
      requires Valid()
      ensures CheckReceiver(OnFile(), a, tx, Env(users.Seen(disk), id, now))
           == if e.Some? then Rejected(e.value) else ReceiverChecked(a, tx)
    {
      var user := users.GetByID(a.receiver, disk);
      if user.Failure? {
        return Some(user.error);
      }
      if user.value.None? {
        return Some(ReceiverNotFound);
      }
      if user.value.value.role != WAREHOUSE {
        return Some(ReceiverNotWarehouse);
      }
      e := None;
    }

    /** Lists the returns of the issue and sums them. */
    method TotalReturned(issueId: string, disk: Disk) returns (r: Result<int>)
      requires Valid()
      ensures r == if rets.Seen(disk).ReadFails? then Failure(StorageFailed)
                   else Success(WrapSum(OnFile().rets, ReturnedForW(issueId)))
    {
      var listed := ListByTransactionID(rets, issueId, disk);
      if listed.Failure? {
        return Failure(listed.error);
      }
      var total := TotalQuantity(listed.value);
      ListedWrapSum(rets.Rows(), issueId);
      r := Success(total);
    }

    /** Sums the returns of the issue and compares. */
    method CheckPartialReturns(a: ReturnArgs, tx: Transaction, disk: Disk, ghost id: string, ghost now: string)
      returns (e: Option<Error>)
      requires Valid()
      ensures CheckBound64(OnFile(), a, tx, Env(rets.Seen(disk), id, now))
           == if e.Some? then Rejected(e.value) else BoundChecked(a, tx)
    {
      var totalReturned := TotalReturned(a.issueId, disk);
      if totalReturned.Failure? {
        return Some(totalReturned.error);
      }
      ghost var b := OnFile();
      assert totalReturned.value == WrapSum(b.rets, ReturnedForW(a.issueId));
      if Wrap(totalReturned.value + a.qty) > tx.quantity {
        return Some(ReturnExceedsIssue);
      }
      e := None;
    }

    method GiveBack(a: ReturnArgs, tx: Transaction, disk: Disk, ghost id: string, ghost now: string)
      returns (e: Option<Error>)
      requires Valid() && InRange(a.qty)
      modifies items.table`file
      ensures
        var (b, c) := PutBack64(old(OnFile()), a, tx, Env(old(items.table.Seen(disk)), id, now));
        OnFile() == b && c == if e.Some? then Rejected(e.value) else Credited(a, tx)
    {
      e := items.IncreaseQuantity(tx.itemId, a.qty, disk);
    }

    method RecordReturned(a: ReturnArgs, tx: Transaction, disk: Disk, id: string, now: string)
      returns (r: Result<Return>)
      requires Valid() && InRange(a.qty)
      modifies rets`file
      ensures
        var (b, c) := RecordReturn(old(OnFile()), a, tx, Env(old(rets.Seen(disk)), id, now));
        OnFile() == b && r == ReturnOutcome(c)
    {
      var ret := Return(id, a.issueId, tx.itemId, a.qty, a.returner, a.receiver, tx.departmentId, now);
      ghost var e0, before := Env(rets.Seen(disk), id, now), OnFile();
      assert ReturnRow(a, tx, e0) == ret && ReturnCodec.fits(ret);
      var e := rets.Add(ret, disk);
      assert OnFile() == before.(rets := rets.Rows());
      r := if e.Some? then Failure(e.value) else Success(ret);
    }

    /** The two writes of `ReturnItem`. */
    method PutBackAndRecord(a: ReturnArgs, tx: Transaction, disk: nat -> Disk, id: string, now: string)
      returns (r: Result<Return>)
      requires Valid() && InRange(a.qty)
      modifies items.table`file, rets`file
      ensures
        var (b, c) := ReturnEnd(Wrapping, old(OnFile()), a, tx, old(ReturnDisk(disk)), id, now);
        OnFile() == b && r == ReturnOutcome(c)
    {
      ghost var d := ReturnDisk(disk);
      var e := GiveBack(a, tx, disk(2), id, now);
      assert d(1) == rets.Seen(disk(1));
      if e.Some? {
        return Failure(e.value);
      }
      r := RecordReturned(a, tx, disk(1), id, now);
    }

    /** All five repository calls of `ReturnItem`. */
    method TakeBack(a: ReturnArgs, disk: nat -> Disk, id: string, now: string) returns (r: Result<Return>)
      requires Valid() && InRange(a.qty)
      modifies items.table`file, rets`file
      ensures
        var (b, c) := Finish(Wrapping, old(OnFile()), StartReturn(a), old(ReturnDisk(disk)), id, now);
        OnFile() == b && r == ReturnOutcome(c)
    {
      FinishReturnReads(Wrapping, OnFile(), a, ReturnDisk(disk), id, now);
      var read := ReadForReturn(a, disk, id, now);
      if read.Failure? {
        return Failure(read.error);
      }
      FinishReturn(Wrapping, OnFile(), a, read.value, ReturnDisk(disk), id, now);
      r := PutBackAndRecord(a, read.value, disk, id, now);
    }

    /** Likewise; on the machine it also succeeds when the sum overflows. */
    method ReturnItem(issueId: string, qty: int, returner: string, receiver: string,
                      disk: nat -> Disk, id: string, now: string) returns (r: Result<Return>)
      requires Valid() && InRange(qty)
      modifies items.table`file, rets`file
      ensures
        var a := ReturnArgs(issueId, qty, returner, receiver);
        var (b, c) := Finish(Wrapping, old(OnFile()), StartReturn(a), old(ReturnDisk(disk)), id, now);
        OnFile() == b && r == ReturnOutcome(c)
      ensures OnFile().rets == old(OnFile().rets) + if r.Success? then [r.value] else []
      ensures Faultless(old(ReturnDisk(disk))) && QuantitiesInRange(old(OnFile()), issueId) ==>
                var b := old(OnFile());
                var tx, taker := Find(b.issues, IssueKey, issueId), Find(b.users, UserKey, receiver);
                var sum := ReturnedFor(b, issueId) + qty;
                && (r.Success? <==>
                      && issueId != "" && returner != "" && receiver != "" && 0 < qty
                      && tx.Some? && taker.Some? && taker.value.role == WAREHOUSE
                      && (sum <= tx.value.quantity || MAX_INT < sum)
                      && ItemExists(b.items, tx.value.itemId)
                      && forall x | x in b.rets :: x.id != id)
                && (r.Success? ==>
                      && tx.Some?
                      && r.value == Return(id, issueId, tx.value.itemId, qty,
                                           returner, receiver, tx.value.departmentId, now))
    {
      var a := ReturnArgs(issueId, qty, returner, receiver);
      ReturnIsTold(OnFile(), a, ReturnDisk(disk), id, now);
      r := TakeBack(a, disk, id, now);
    }
  }
}
