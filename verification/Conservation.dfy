/** Stock is neither created nor lost, and never goes below zero, whatever the
    interleaving and whatever fails. No hypothesis on the starting rows is needed
    for the balance itself. */
module Conservation {
  import opened Models
  import opened Sums
  import opened Ledger

  /** Either the whole warehouse or one item. */
  datatype Scope = AllItems | OnlyItem(id: string) {
    predicate Has(x: string) {
      AllItems? || x == id
    }
  }

  ghost function StockW(sc: Scope): Item -> int {
    (it: Item) => if sc.Has(it.id) then it.quantity else 0
  }

  ghost function IssuedW(sc: Scope): Transaction -> int {
    (tx: Transaction) => if sc.Has(tx.itemId) then tx.quantity else 0
  }

  ghost function ReturnedW(sc: Scope): Return -> int {
    (r: Return) => if sc.Has(r.itemId) then r.quantityReturned else 0
  }

  /** Taken off the shelf, not (or never) recorded as an issue. */
  ghost function DebitW(sc: Scope): Call -> int {
    (c: Call) => if (c.Debited? || c.DebitStranded?) && sc.Has(c.ia.itemId) then c.ia.qty else 0
  }

  /** Put back on the shelf, not (or never) recorded as a return. */
  ghost function CreditW(sc: Scope): Call -> int {
    (c: Call) => if (c.Credited? || c.CreditStranded?) && sc.Has(c.tx.itemId) then c.ra.qty else 0
  }

  ghost function Stock(s: State, sc: Scope): int { Sum(s.books.items, StockW(sc)) }

  ghost function IssuedQty(s: State, sc: Scope): int { Sum(s.books.issues, IssuedW(sc)) }

  ghost function ReturnedQty(s: State, sc: Scope): int { Sum(s.books.rets, ReturnedW(sc)) }

  ghost function OpenDebits(s: State, sc: Scope): int { Sum(s.calls, DebitW(sc)) }

  ghost function OpenCredits(s: State, sc: Scope): int { Sum(s.calls, CreditW(sc)) }

  ghost function Balance(s: State, sc: Scope): int {
    Stock(s, sc) + IssuedQty(s, sc) - ReturnedQty(s, sc) + OpenDebits(s, sc) - OpenCredits(s, sc)
  }

  ghost function Added(s: State, a: Action, sc: Scope): int {
    if a.AddItem? && ItemStored(s.books, a.item, a.disk) then StockW(sc)(a.item) else 0
  }

  ghost function AddedIn(s: State, run: seq<Action>, sc: Scope): int
    decreases run
  {
    if run == [] then 0 else Added(s, run[0], sc) + AddedIn(Next(s, run[0]), run[1..], sc)
  }

  /** What the warehouse was ever given: the starting balance (stock plus what
      was already out) plus every quantity stored by `AddItem` during the run. */
  ghost function Introduced(s: State, run: seq<Action>, sc: Scope): int {
    Balance(s, sc) + AddedIn(s, run, sc)
  }

  /** What a set of books holds of a scope, on the shelf or out on loan. */
  ghost function Held(b: Books, sc: Scope): int {
    Sum(b.items, StockW(sc)) + Sum(b.issues, IssuedW(sc)) - Sum(b.rets, ReturnedW(sc))
  }

  lemma DebitLowersStock(items: seq<Item>, id: string, qty: int, disk: Disk, sc: Scope)
    requires Debit(items, id, qty, disk).Success?
    ensures Sum(Debit(items, id, qty, disk).value.0, StockW(sc))
         == Sum(items, StockW(sc)) - if sc.Has(id) then qty else 0
  {
    var k := IndexBy(items, ItemKey, id);
    SumUpdate(items, k, items[k].(quantity := items[k].quantity - qty), StockW(sc));
  }

  lemma CreditRaisesStock(items: seq<Item>, id: string, qty: int, disk: Disk, sc: Scope)
    requires Credit(items, id, qty, disk).Success?
    ensures Sum(Credit(items, id, qty, disk).value, StockW(sc))
         == Sum(items, StockW(sc)) + if sc.Has(id) then qty else 0
  {
    var k := IndexBy(items, ItemKey, id);
    SumUpdate(items, k, items[k].(quantity := items[k].quantity + qty), StockW(sc));
  }

  ghost predicate SameTotal(b: Books, c: Call, b': Books, c': Call, sc: Scope) {
    Held(b', sc) + DebitW(sc)(c') - CreditW(sc)(c') == Held(b, sc) + DebitW(sc)(c) - CreditW(sc)(c)
  }

  lemma TakeStockKeepsBalance(b: Books, c: Call, e: Env, sc: Scope)
    requires c.StockChecked?
    ensures SameTotal(b, c, Step(b, c, e).0, Step(b, c, e).1, sc)
  {
    if Debit(b.items, c.ia.itemId, c.ia.qty, e.disk).Success? {
      DebitLowersStock(b.items, c.ia.itemId, c.ia.qty, e.disk, sc);
    }
  }

  lemma PutBackKeepsBalance(b: Books, c: Call, e: Env, sc: Scope)
    requires c.BoundChecked?
    ensures SameTotal(b, c, Step(b, c, e).0, Step(b, c, e).1, sc)
  {
    if Credit(b.items, c.tx.itemId, c.ra.qty, e.disk).Success? {
      CreditRaisesStock(b.items, c.tx.itemId, c.ra.qty, e.disk, sc);
    }
  }

  lemma RecordIssueKeepsBalance(b: Books, c: Call, e: Env, sc: Scope)
    requires c.Debited?
    ensures SameTotal(b, c, Step(b, c, e).0, Step(b, c, e).1, sc)
  {
    SumAppend(b.issues, IssueRow(c.ia, c.dept, c.itemName, e), IssuedW(sc));
  }

  lemma RecordReturnKeepsBalance(b: Books, c: Call, e: Env, sc: Scope)
    requires c.Credited?
    ensures SameTotal(b, c, Step(b, c, e).0, Step(b, c, e).1, sc)
  {
    SumAppend(b.rets, ReturnRow(c.ra, c.tx, e), ReturnedW(sc));
  }

  /** The six steps that only read. */
  lemma ReadStepKeepsBalance(b: Books, c: Call, e: Env, sc: Scope)
    requires !c.StockChecked? && !c.Debited? && !c.BoundChecked? && !c.Credited?
    ensures SameTotal(b, c, Step(b, c, e).0, Step(b, c, e).1, sc)
  {
  }

  lemma StepKeepsBalance(b: Books, c: Call, e: Env, sc: Scope)
    ensures SameTotal(b, c, Step(b, c, e).0, Step(b, c, e).1, sc)
  {
    if c.StockChecked? {
      TakeStockKeepsBalance(b, c, e, sc);
    } else if c.BoundChecked? {
      PutBackKeepsBalance(b, c, e, sc);
    } else if c.Debited? {
      RecordIssueKeepsBalance(b, c, e, sc);
    } else if c.Credited? {
      RecordReturnKeepsBalance(b, c, e, sc);
    } else {
      ReadStepKeepsBalance(b, c, e, sc);
    }
  }

  lemma AdvanceKeepsBalance(s: State, i: nat, e: Env, sc: Scope)
    requires i < |s.calls|
    ensures Balance(Next(s, Advance(i, e)), sc) == Balance(s, sc)
  {
    var (b, c) := Step(s.books, s.calls[i], e);
    assert Next(s, Advance(i, e)) == State(b, s.calls[i := c]);
    StepKeepsBalance(s.books, s.calls[i], e, sc);
    SumUpdate(s.calls, i, c, DebitW(sc));
    SumUpdate(s.calls, i, c, CreditW(sc));
  }

  lemma NewCallKeepsBalance(s: State, c: Call, sc: Scope)
    requires c.Rejected? || c.IssueAsked? || c.ReturnAsked?
    ensures Balance(s.(calls := s.calls + [c]), sc) == Balance(s, sc)
  {
    SumAppend(s.calls, c, DebitW(sc));
    SumAppend(s.calls, c, CreditW(sc));
  }

  lemma NextKeepsBalance(s: State, a: Action, sc: Scope)
    ensures Balance(Next(s, a), sc) == Balance(s, sc) + Added(s, a, sc)
  {
    match a
    case BeginIssue(ia) => NewCallKeepsBalance(s, StartIssue(ia), sc);
    case BeginReturn(ra) => NewCallKeepsBalance(s, StartReturn(ra), sc);
    case AddItem(item, _) => SumAppend(s.books.items, item, StockW(sc));
    case AddUser(_, _) =>
    case Advance(i, e) =>
      if i < |s.calls| {
        AdvanceKeepsBalance(s, i, e, sc);
      }
  }

  /** CONSERVATION, for every interleaving of any number of issues, returns and
      additions, failing repository calls included. */
  lemma {:induction false} StockIsConserved(s: State, run: seq<Action>, sc: Scope)
    ensures
      var t := Run(s, run);
      Stock(t, sc) + IssuedQty(t, sc) - ReturnedQty(t, sc) + OpenDebits(t, sc) - OpenCredits(t, sc)
      == Introduced(s, run, sc)
    decreases run
  {
    if run != [] {
      NextKeepsBalance(s, run[0], sc);
      StockIsConserved(Next(s, run[0]), run[1..], sc);
    }
  }

  /** Nothing half-done and nothing stranded by a failed append. */
  ghost predicate Settled(s: State) {
    forall c | c in s.calls :: !c.Debited? && !c.DebitStranded? && !c.Credited? && !c.CreditStranded?
  }

  /** The bookkeeping identity a stocktake relies on. */
  lemma SettledBooksBalance(s: State, run: seq<Action>, sc: Scope)
    requires Settled(Run(s, run))
    ensures
      var t := Run(s, run);
      Stock(t, sc) + IssuedQty(t, sc) - ReturnedQty(t, sc) == Introduced(s, run, sc)
  {
    var t := Run(s, run);
    StockIsConserved(s, run, sc);
    SumZero(t.calls, DebitW(sc));
    SumZero(t.calls, CreditW(sc));
  }

  // ---- never negative ------------------------------------------------------

  ghost predicate NoNegativeStock(items: seq<Item>) {
    forall i | 0 <= i < |items| :: 0 <= items[i].quantity
  }

  /** STOCK IS NEVER NEGATIVE: the stock test in `IssueItem` reads a value that
      may be stale by the time it debits, but the debit itself tests again. (On exact
      integers; see Int64 for the machine.) */
  lemma {:induction false} StockNeverNegative(s: State, run: seq<Action>)
    requires NoNegativeStock(s.books.items)
    ensures NoNegativeStock(Run(s, run).books.items)
    decreases run
  {
    if run != [] {
      assert NoNegativeStock(Next(s, run[0]).books.items);
      StockNeverNegative(Next(s, run[0]), run[1..]);
    }
  }

  ghost function DebitsTaken(s: State, sc: Scope): int { IssuedQty(s, sc) + OpenDebits(s, sc) }

  ghost function CreditsGiven(s: State, sc: Scope): int { ReturnedQty(s, sc) + OpenCredits(s, sc) }

  /** Concurrent issues can never hand out more than there was: the debits of a
      run exceed the starting stock and the additions by no more than the credits
      of the same run, and not at all if nothing was credited. */
  lemma DebitsNeverExceedSupply(s: State, run: seq<Action>, sc: Scope)
    requires NoNegativeStock(s.books.items)
    ensures
      var t := Run(s, run);
      && DebitsTaken(t, sc) - DebitsTaken(s, sc)
         <= Stock(s, sc) + AddedIn(s, run, sc) + CreditsGiven(t, sc) - CreditsGiven(s, sc)
      && (CreditsGiven(t, sc) == CreditsGiven(s, sc) ==>
            DebitsTaken(t, sc) - DebitsTaken(s, sc) <= Stock(s, sc) + AddedIn(s, run, sc))
  {
    StockIsConserved(s, run, sc);
    StockNeverNegative(s, run);
    SumNonNegative(Run(s, run).books.items, StockW(sc));
  }
}
