/** What one request for too much does on the machine: the return form passes any 64-bit
    number on, and the bound check adds it to what is recorded. */
module Overflow {
  import opened Models
  import opened Sums
  import opened Ledger
  import opened Records
  import opened Machine
  import opened Integrity
  import opened PartialReturns
  import opened Int64
  import opened StockService

  /** A consistent state of 64-bit quantities, an issue in it and somebody to receive returns. */
  ghost predicate Receiving(s: State, k: nat, returner: string, receiver: string) {
    && Inv(s) && Safe(s) && StockInRange(s.books.items) && IssuesInRange(s.books)
    && k < |s.books.issues| && s.books.issues[k].id != ""
    && returner != "" && receiver != "" && IsWarehouse(s.books.users, receiver)
  }

  /** Undisturbed and without faults, `ReturnItem` records `qty` and the issue is then
      over-returned. */
  ghost predicate OverReturns(b: Books, tx: Transaction, qty: int, returner: string, receiver: string, newId: string) {
    var (b', c') := Finish(Wrapping, b, StartReturn(ReturnArgs(tx.id, qty, returner, receiver)), NoFaults(), newId, "");
    c'.Returned? && tx.quantity < ReturnedFor(b', tx.id)
  }

  lemma OneReturn(s: State, k: nat, qty: int, returner: string, receiver: string, newId: string)
    requires Receiving(s, k, returner, receiver) && 0 < qty <= MAX_INT && Find(s.books.rets, ReturnKey, newId).None?
    ensures
      var tx := s.books.issues[k];
      var sum := ReturnedFor(s.books, tx.id) + qty;
      var (b', c') :=
          Finish(Wrapping, s.books, StartReturn(ReturnArgs(tx.id, qty, returner, receiver)), NoFaults(), newId, "");
      && (c'.Returned? <==> sum <= tx.quantity || MAX_INT < sum)
      && (c'.Returned? ==>
            && Credit64(s.books.items, tx.itemId, qty, Works).Success?
            && b'.items == Credit64(s.books.items, tx.itemId, qty, Works).value
            && ReturnedFor(b', tx.id) == sum)
  {
    var tx := s.books.issues[k];
    var a := ReturnArgs(tx.id, qty, returner, receiver);
    FindUnique(s.books.issues, IssueKey, k);
    RecordedWithinIssue(s, tx.id, tx);
    IssuedItemExists(s.books, tx);
    forall t | t in s.books.issues ensures 0 <= t.quantity <= MAX_INT {
      var i :| 0 <= i < |s.books.issues| && s.books.issues[i] == t;
      assert IssueRefers(s.books, s.books.issues[i]);
    }
    MachineReturnSucceedsIff(s.books, a, newId, "");
    SumAppend(s.books.rets, ReturnRow(a, tx, Env(Works, newId, "")), ReturnedForW(tx.id));
  }

  /** ONE REQUEST IS ENOUGH, EXACTLY WHEN something was returned before: a single undisturbed
      return can exceed its issue if and only if the issue has a recorded return. */
  lemma OverReturnPossibleIff(s: State, k: nat, returner: string, receiver: string, newId: string)
    requires Receiving(s, k, returner, receiver) && Find(s.books.rets, ReturnKey, newId).None?
    ensures
      var tx := s.books.issues[k];
      (exists qty :: 0 < qty <= MAX_INT && OverReturns(s.books, tx, qty, returner, receiver, newId))
      <==> 0 < ReturnedFor(s.books, tx.id)
  {
    var tx := s.books.issues[k];
    FindUnique(s.books.issues, IssueKey, k);
    RecordedWithinIssue(s, tx.id, tx);
    forall qty | 0 < qty <= MAX_INT
      ensures OverReturns(s.books, tx, qty, returner, receiver, newId) <==> MAX_INT < ReturnedFor(s.books, tx.id) + qty
    {
      OneReturn(s, k, qty, returner, receiver, newId);
    }
    if 0 < ReturnedFor(s.books, tx.id) {
      assert OverReturns(s.books, tx, MAX_INT, returner, receiver, newId);
    }
  }

  /** The run of one undisturbed return from a state with any calls. */
  lemma ReturnRun(s: State, a: ReturnArgs, newId: string) returns (run: seq<Action>)
    ensures run != [] && run[0] == BeginReturn(a)
    ensures forall x | x in run[1..] :: x.Advance? && x.call == |s.calls| && x.env.disk.Works?
    ensures RunIn(Wrapping, s, run).books == Finish(Wrapping, s.books, StartReturn(a), NoFaults(), newId, "").0
  {
    var rest := FinishIsARun(Wrapping, s.books, s.calls, StartReturn(a), NoFaults(), newId, "");
    assert Faultless(NoFaults());
    run := [BeginReturn(a)] + rest;
    assert run[1..] == rest;
    assert NextIn(Wrapping, s, run[0]) == State(s.books, s.calls + [StartReturn(a)]);
  }

  /** THE RULES BROKEN IN SEQUENCE: from every such state with a recorded return, one call
      served alone, with working files, leaves the issue over-returned and, if the item was
      in stock, a negative stock. */
  lemma OneCallBreaksBothRules(s: State, k: nat, returner: string, receiver: string) returns (run: seq<Action>)
    requires Receiving(s, k, returner, receiver) && 0 < ReturnedFor(s.books, s.books.issues[k].id)
    ensures run != [] && run[0].BeginReturn?
    ensures forall a | a in run[1..] :: a.Advance? && a.call == |s.calls| && a.env.disk.Works?
    ensures
      var tx, end := s.books.issues[k], RunIn(Wrapping, s, run).books;
      var i := IndexBy(s.books.items, ItemKey, tx.itemId);
      && tx.quantity < ReturnedFor(end, tx.id)
      && i < |s.books.items| == |end.items|
      && (end.items[i].quantity < 0 <==> 0 < s.books.items[i].quantity)
  {
    var tx := s.books.issues[k];
    var newId := FreshReturnId(s.books.rets);
    FindUnique(s.books.issues, IssueKey, k);
    RecordedWithinIssue(s, tx.id, tx);
    OneReturn(s, k, MAX_INT, returner, receiver, newId);
    FullCredit(s.books.items, tx.itemId);
    run := ReturnRun(s, ReturnArgs(tx.id, MAX_INT, returner, receiver), newId);
  }

  lemma FullCredit(items: seq<Item>, id: string)
    requires StockInRange(items) && Credit64(items, id, MAX_INT, Works).Success?
    ensures
      var after, i := Credit64(items, id, MAX_INT, Works).value, IndexBy(items, ItemKey, id);
      i < |items| == |after| && (after[i].quantity < 0 <==> 0 < items[i].quantity)
  {
    var i := IndexBy(items, ItemKey, id);
    if 0 < items[i].quantity {
      WrapOverflow(items[i].quantity + MAX_INT);
    } else {
      WrapExact(items[i].quantity + MAX_INT);
    }
  }
}
