/** When 64-bit integers make a difference to the stock ledger, exactly, and what goes wrong
    when they do. */
module Int64 {
  import opened Models
  import opened Sums
  import opened Ledger
  import opened Records
  import opened Machine
  import opened Conservation
  import opened Integrity
  import opened PartialReturns
  import opened ReturnTotals

  // ---- typed states ------------------------------------------------------------------------

  /** Quantities are 64-bit integers and those asked for are positive, as every entry point
      makes sure. */
  ghost predicate TypedCall(c: Call) {
    && (c.Issuing() ==> 0 < c.ia.qty <= MAX_INT)
    && (c.Returning() ==> 0 < c.ra.qty <= MAX_INT)
  }

  ghost predicate TypedAction(a: Action) {
    && (a.BeginIssue? ==> a.ia.qty <= MAX_INT)
    && (a.BeginReturn? ==> a.ra.qty <= MAX_INT)
    && (a.AddItem? ==> a.item.quantity <= MAX_INT)
  }

  ghost predicate TypedCalls(s: State) { forall i | 0 <= i < |s.calls| :: TypedCall(s.calls[i]) }

  lemma TypedStep(ar: Arithmetic, b: Books, c: Call, e: Env)
    requires TypedCall(c)
    ensures TypedCall(StepIn(ar, b, c, e).1)
  {
    if c.Issuing() {
      TypedIssueStep(ar, b, c, e);
    } else if c.Returning() {
      TypedReturnStep(ar, b, c, e);
    }
  }

  lemma TypedIssueStep(ar: Arithmetic, b: Books, c: Call, e: Env)
    requires TypedCall(c) && c.Issuing()
    ensures TypedCall(StepIn(ar, b, c, e).1)
  {
  }

  lemma TypedReturnStep(ar: Arithmetic, b: Books, c: Call, e: Env)
    requires TypedCall(c) && c.Returning()
    ensures TypedCall(StepIn(ar, b, c, e).1)
  {
  }

  lemma NextKeepsTyped(ar: Arithmetic, s: State, a: Action)
    requires TypedCalls(s) && TypedAction(a)
    ensures TypedCalls(NextIn(ar, s, a))
  {
    if a.Advance? && a.call < |s.calls| {
      TypedStep(ar, s.books, s.calls[a.call], a.env);
    }
  }

  // ---- conservation up to whole turns -------------------------------------------------------------

  /** How many whole turns of 2^64 wrapping takes off. */
  function Turns(n: int): int { (n + TWO63) / TWO64 }

  lemma WrapTurns(n: int)
    ensures Wrap(n) == n - Turns(n) * TWO64
  {
  }

  lemma Requantified(items: seq<Item>, k: nat, n: int, sc: Scope)
    requires k < |items|
    ensures Sum(items[k := items[k].(quantity := Wrap(n))], StockW(sc))
         == Sum(items, StockW(sc)) + if sc.Has(items[k].id) then n - items[k].quantity - Turns(n) * TWO64 else 0
  {
    SumUpdate(items, k, items[k].(quantity := Wrap(n)), StockW(sc));
    WrapTurns(n);
  }

  /** The two writes of the stock, the only steps that wrap what is stored. */
  ghost predicate OffByTurns(b: Books, c: Call, b': Books, c': Call, sc: Scope, turns: int) {
    Held(b', sc) + DebitW(sc)(c') - CreditW(sc)(c') == Held(b, sc) + DebitW(sc)(c) - CreditW(sc)(c) + turns * TWO64
  }

  lemma DebitOffByTurns(items: seq<Item>, id: string, qty: int, disk: Disk, sc: Scope) returns (turns: int)
    requires Debit64(items, id, qty, disk).Success?
    ensures Sum(Debit64(items, id, qty, disk).value.0, StockW(sc))
         == Sum(items, StockW(sc)) - (if sc.Has(id) then qty else 0) + turns * TWO64
  {
    var k := IndexBy(items, ItemKey, id);
    Requantified(items, k, items[k].quantity - qty, sc);
    turns := if sc.Has(id) then -Turns(items[k].quantity - qty) else 0;
  }

  lemma CreditOffByTurns(items: seq<Item>, id: string, qty: int, disk: Disk, sc: Scope) returns (turns: int)
    requires Credit64(items, id, qty, disk).Success?
    ensures Sum(Credit64(items, id, qty, disk).value, StockW(sc))
         == Sum(items, StockW(sc)) + (if sc.Has(id) then qty else 0) + turns * TWO64
  {
    var k := IndexBy(items, ItemKey, id);
    Requantified(items, k, items[k].quantity + qty, sc);
    turns := if sc.Has(id) then -Turns(items[k].quantity + qty) else 0;
  }

  lemma TakingOffByTurns(b: Books, c: Call, e: Env, sc: Scope) returns (turns: int)
    requires c.StockChecked?
    ensures var p := StepIn(Wrapping, b, c, e); OffByTurns(b, c, p.0, p.1, sc, turns)
  {
    turns := 0;
    if Debit64(b.items, c.ia.itemId, c.ia.qty, e.disk).Success? {
      turns := DebitOffByTurns(b.items, c.ia.itemId, c.ia.qty, e.disk, sc);
    }
  }

  lemma PuttingBackOffByTurns(b: Books, c: Call, e: Env, sc: Scope) returns (turns: int)
    requires c.BoundChecked?
    ensures var p := StepIn(Wrapping, b, c, e); OffByTurns(b, c, p.0, p.1, sc, turns)
  {
    turns := 0;
    if Credit64(b.items, c.tx.itemId, c.ra.qty, e.disk).Success? {
      turns := CreditOffByTurns(b.items, c.tx.itemId, c.ra.qty, e.disk, sc);
    }
  }

  lemma CallOffByTurns(b: Books, c: Call, e: Env, sc: Scope) returns (turns: int)
    ensures var p := StepIn(Wrapping, b, c, e); OffByTurns(b, c, p.0, p.1, sc, turns)
  {
    if c.StockChecked? {
      turns := TakingOffByTurns(b, c, e, sc);
    } else if c.BoundChecked? {
      turns := PuttingBackOffByTurns(b, c, e, sc);
    } else if c.ReceiverChecked? {
      turns := 0;
    } else {
      StepKeepsBalance(b, c, e, sc);
      turns := 0;
    }
  }

  lemma NextOffByTurns(s: State, a: Action, sc: Scope) returns (turns: int)
    ensures Balance(NextIn(Wrapping, s, a), sc) == Balance(s, sc) + Added(s, a, sc) + turns * TWO64
  {
    if a.Advance? && a.call < |s.calls| {
      var p := StepIn(Wrapping, s.books, s.calls[a.call], a.env);
      assert NextIn(Wrapping, s, a) == State(p.0, s.calls[a.call := p.1]);
      turns := CallOffByTurns(s.books, s.calls[a.call], a.env, sc);
      SumUpdate(s.calls, a.call, p.1, DebitW(sc));
      SumUpdate(s.calls, a.call, p.1, CreditW(sc));
    } else {
      turns := 0;
      NextKeepsBalance(s, a, sc);
    }
  }

  ghost function AddedOnMachine(s: State, run: seq<Action>, sc: Scope): int
    decreases run
  {
    if run == [] then 0 else Added(s, run[0], sc) + AddedOnMachine(NextIn(Wrapping, s, run[0]), run[1..], sc)
  }

  /** CONSERVATION ON THE MACHINE: in every interleaved run, whatever overflows, the balance is
      what was introduced up to a multiple of 2^64. */
  lemma {:induction false} ConservedUpToTurns(s: State, run: seq<Action>, sc: Scope) returns (turns: int)
    ensures Balance(RunIn(Wrapping, s, run), sc) == Balance(s, sc) + AddedOnMachine(s, run, sc) + turns * TWO64
    decreases run
  {
    turns := 0;
    if run != [] {
      var first := NextOffByTurns(s, run[0], sc);
      var rest := ConservedUpToTurns(NextIn(Wrapping, s, run[0]), run[1..], sc);
      turns := first + rest;
    }
  }

  // ---- never negative, exactly ------------------------------------------------------------------

  /** The step credits a stock that has no room for it. */
  ghost predicate Overfilling(s: State, a: Action) {
    && a.Advance? && a.call < |s.calls| && s.calls[a.call].BoundChecked?
    && Credit(s.books.items, s.calls[a.call].tx.itemId, s.calls[a.call].ra.qty, a.env.disk).Success?
    && Overfills(s.books.items, s.calls[a.call].tx.itemId, s.calls[a.call].ra.qty)
  }

  lemma StepStockIff(s: State, a: Action)
    requires TypedCalls(s) && TypedAction(a) && StockInRange(s.books.items)
    ensures NoNegativeStock(NextIn(Wrapping, s, a).books.items) <==> !Overfilling(s, a)
    ensures NoNegativeStock(NextIn(Wrapping, s, a).books.items) ==> StockInRange(NextIn(Wrapping, s, a).books.items)
  {
    if a.Advance? && a.call < |s.calls| {
      var c := s.calls[a.call];
      if c.BoundChecked? {
        CreditStockIff(s.books.items, c.tx.itemId, c.ra.qty, a.env.disk);
      } else if c.StockChecked? {
        DebitAgrees(s.books.items, c.ia.itemId, c.ia.qty, a.env.disk);
      }
    }
  }

  lemma CreditStockIff(items: seq<Item>, id: string, qty: int, disk: Disk)
    requires StockInRange(items) && 0 < qty <= MAX_INT
    ensures
      var r := Credit64(items, id, qty, disk);
      && (r.Success? <==> Credit(items, id, qty, disk).Success?)
      && (r.Success? ==> (StockInRange(r.value) <==> !Overfills(items, id, qty)))
      && (r.Success? ==> (NoNegativeStock(r.value) <==> !Overfills(items, id, qty)))
  {
    CreditAgreesIff(items, id, qty, disk);
    var r, k := Credit64(items, id, qty, disk), IndexBy(items, ItemKey, id);
    if r.Success? && !Overfills(items, id, qty) {
      WrapExact(items[k].quantity + qty);
      assert forall j | 0 <= j < |items| && j != k :: r.value[j] == items[j];
    }
  }

  ghost predicate StockStaysIn(s: State, run: seq<Action>)
    decreases run
  {
    NoNegativeStock(s.books.items) && (run != [] ==> StockStaysIn(NextIn(Wrapping, s, run[0]), run[1..]))
  }

  ghost predicate RoomIn(s: State, run: seq<Action>)
    decreases run
  {
    run != [] ==> !Overfilling(s, run[0]) && RoomIn(NextIn(Wrapping, s, run[0]), run[1..])
  }

  /** NEVER NEGATIVE ON THE MACHINE: in every interleaved run no stock is ever negative if
      and only if every credit finds room below 2^63. */
  lemma {:induction false} StockStaysIffRoom(s: State, run: seq<Action>)
    requires TypedCalls(s) && StockInRange(s.books.items) && forall a | a in run :: TypedAction(a)
    ensures StockStaysIn(s, run) <==> RoomIn(s, run)
    decreases run
  {
    if run != [] {
      var s' := NextIn(Wrapping, s, run[0]);
      assert run[0] in run && forall a | a in run[1..] :: a in run;
      StepStockIff(s, run[0]);
      if !Overfilling(s, run[0]) {
        NextKeepsTyped(Wrapping, s, run[0]);
        StockStaysIffRoom(s', run[1..]);
      } else {
        assert !StockStaysIn(s', run[1..]);
      }
    }
  }

  // ---- room on the shelf ---------------------------------------------------------------------

  /** Credits promised but not yet given. */
  ghost function AwaitingCreditW(sc: Scope): Call -> int {
    (c: Call) => if c.BoundChecked? && sc.Has(c.tx.itemId) then c.ra.qty else 0
  }

  ghost predicate NoCreditStranded(s: State) {
    forall c | c in s.calls :: !c.CreditStranded?
  }

  /** Stock, even after every promised credit, never exceeds what was introduced. */
  lemma StockWithinIntroduced(s: State, sc: Scope)
    requires Inv(s) && Safe(s) && NoCreditStranded(s)
    ensures Stock(s, sc) + Sum(s.calls, AwaitingCreditW(sc)) <= Balance(s, sc)
  {
    ReturnsWithinIssues(s, sc);
    SumPlus(s.calls, CreditW(sc), AwaitingCreditW(sc), PromisedW(sc));
    forall c | c in s.calls ensures 0 <= DebitW(sc)(c) {
      var i :| 0 <= i < |s.calls| && s.calls[i] == c;
      assert CallOk(s.books, s.calls[i]);
    }
    SumNonNegative(s.calls, DebitW(sc));
  }

  lemma AwaitingWithinTotal(s: State, i: nat, sc: Scope)
    requires Inv(s) && i < |s.calls|
    ensures 0 <= AwaitingCreditW(sc)(s.calls[i]) <= Sum(s.calls, AwaitingCreditW(sc))
  {
    forall c | c in s.calls ensures 0 <= AwaitingCreditW(sc)(c) {
      if c.BoundChecked? {
        InvIsTracked(s);
        PromiseFacts(s, c);
      }
    }
    SumDominates(s.calls, i, AwaitingCreditW(sc));
  }

  // ---- agreement, exactly ---------------------------------------------------------------------------

  lemma RecordedWithinIssue(s: State, id: string, tx: Transaction)
    requires Inv(s) && Safe(s) && Find(s.books.issues, IssueKey, id) == Some(tx)
    ensures 0 <= ReturnedFor(s.books, id) <= tx.quantity
  {
    var k :| 0 <= k < |s.books.issues| && s.books.issues[k] == tx;
    InvIsTracked(s);
    PromisesCountPositive(s, id);
    assert Reserved(s, s.books.issues[k].id) <= s.books.issues[k].quantity;
    forall r | r in s.books.rets ensures 0 <= ReturnedForW(id)(r) {
      var j :| 0 <= j < |s.books.rets| && s.books.rets[j] == r;
      assert ReturnRefers(s.books, s.books.rets[j]);
    }
    SumNonNegative(s.books.rets, ReturnedForW(id));
  }

  /** BOUND CHECK ON THE MACHINE: for any request the code can meet, its check agrees with
      the intended one exactly when recorded plus requested fits in 64 bits; beyond, it
      passes. */
  lemma BoundCheckExactIffNoOverflow(s: State, a: ReturnArgs, tx: Transaction, e: Env)
    requires Inv(s) && Safe(s) && Find(s.books.issues, IssueKey, a.issueId) == Some(tx)
    requires 0 < a.qty <= MAX_INT && tx.quantity <= MAX_INT && !e.disk.ReadFails?
    ensures CheckBound64(s.books, a, tx, e) == CheckBound(s.books, a, tx, e)
       <==> ReturnedFor(s.books, a.issueId) + a.qty <= MAX_INT
    ensures CheckBound64(s.books, a, tx, e).BoundChecked?
       <==> ReturnedFor(s.books, a.issueId) + a.qty <= tx.quantity || MAX_INT < ReturnedFor(s.books, a.issueId) + a.qty
  {
    RecordedWithinIssue(s, a.issueId, tx);
    BoundAgreesIff(s.books, a, tx, e);
  }

  /** The step adds up to more than 64 bits hold: the sum of the bound check, or a stock. */
  ghost predicate Overflows(s: State, a: Action) {
    || Overfilling(s, a)
    || (&& a.Advance? && a.call < |s.calls| && s.calls[a.call].ReceiverChecked? && !a.env.disk.ReadFails?
        && MAX_INT < ReturnedFor(s.books, s.calls[a.call].ra.issueId) + s.calls[a.call].ra.qty)
  }

  ghost predicate IssuesInRange(b: Books) { forall i | 0 <= i < |b.issues| :: b.issues[i].quantity <= MAX_INT }

  ghost predicate Typed(s: State) { TypedCalls(s) && StockInRange(s.books.items) && IssuesInRange(s.books) }

  lemma TakingAgrees(b: Books, c: Call, e: Env)
    requires c.StockChecked? && TypedCall(c) && StockInRange(b.items)
    ensures StepIn(Wrapping, b, c, e) == Step(b, c, e)
  {
    DebitAgrees(b.items, c.ia.itemId, c.ia.qty, e.disk);
  }

  lemma PuttingBackAgreesIff(b: Books, c: Call, e: Env)
    requires c.BoundChecked? && TypedCall(c) && StockInRange(b.items)
    ensures StepIn(Wrapping, b, c, e) == Step(b, c, e)
       <==> !(Credit(b.items, c.tx.itemId, c.ra.qty, e.disk).Success? && Overfills(b.items, c.tx.itemId, c.ra.qty))
  {
    CreditAgreesIff(b.items, c.tx.itemId, c.ra.qty, e.disk);
  }

  lemma CheckingAgreesIff(s: State, k: nat, e: Env)
    requires Inv(s) && Safe(s) && k < |s.calls| && TypedCall(s.calls[k]) && IssuesInRange(s.books)
    requires s.calls[k].ReceiverChecked?
    ensures StepIn(Wrapping, s.books, s.calls[k], e) == Step(s.books, s.calls[k], e)
       <==> e.disk.ReadFails? || ReturnedFor(s.books, s.calls[k].ra.issueId) + s.calls[k].ra.qty <= MAX_INT
  {
    var c := s.calls[k];
    assert CallOk(s.books, s.calls[k]);
    if !e.disk.ReadFails? {
      var i :| 0 <= i < |s.books.issues| && s.books.issues[i] == c.tx;
      BoundCheckExactIffNoOverflow(s, c.ra, c.tx, e);
    }
  }

  lemma CallAgreesIff(s: State, k: nat, e: Env)
    requires Inv(s) && Safe(s) && Typed(s) && k < |s.calls|
    ensures StepIn(Wrapping, s.books, s.calls[k], e) == Step(s.books, s.calls[k], e) <==> !Overflows(s, Advance(k, e))
  {
    var c := s.calls[k];
    assert TypedCall(s.calls[k]);
    if c.StockChecked? {
      TakingAgrees(s.books, c, e);
    } else if c.BoundChecked? {
      PuttingBackAgreesIff(s.books, c, e);
    } else if c.ReceiverChecked? {
      CheckingAgreesIff(s, k, e);
    }
  }

  lemma StepAgreesIff(s: State, a: Action)
    requires Inv(s) && Safe(s) && Typed(s)
    ensures NextIn(Wrapping, s, a) == Next(s, a) <==> !Overflows(s, a)
  {
    if a.Advance? && a.call < |s.calls| {
      CallAgreesIff(s, a.call, a.env);
      SameStepSameState(s, a.call, StepIn(Wrapping, s.books, s.calls[a.call], a.env),
                        Step(s.books, s.calls[a.call], a.env));
    }
  }

  lemma SameStepSameState(s: State, k: nat, p: (Books, Call), q: (Books, Call))
    requires k < |s.calls|
    ensures p == q <==> State(p.0, s.calls[k := p.1]) == State(q.0, s.calls[k := q.1])
  {
    assert s.calls[k := p.1][k] == p.1 && s.calls[k := q.1][k] == q.1;
  }

  /** Both arithmetics take the same step, all along the run. */
  ghost predicate AgreesIn(s: State, run: seq<Action>)
    decreases run
  {
    run != [] ==> NextIn(Wrapping, s, run[0]) == Next(s, run[0]) && AgreesIn(Next(s, run[0]), run[1..])
  }

  ghost predicate FitsIn(s: State, run: seq<Action>)
    decreases run
  {
    run != [] ==> !Overflows(s, run[0]) && FitsIn(Next(s, run[0]), run[1..])
  }

  lemma {:induction false} AgreeingRunsEndAlike(s: State, run: seq<Action>)
    requires AgreesIn(s, run)
    ensures RunIn(Wrapping, s, run) == Run(s, run)
    decreases run
  {
    if run != [] {
      AgreeingRunsEndAlike(Next(s, run[0]), run[1..]);
    }
  }

  lemma NextKeepsIssuesInRange(s: State, a: Action)
    requires TypedCalls(s) && IssuesInRange(s.books)
    ensures IssuesInRange(Next(s, a).books)
  {
    if a.Advance? && a.call < |s.calls| {
      assert TypedCall(s.calls[a.call]);
    }
  }

  lemma StepKeepsTyped(s: State, a: Action)
    requires Inv(s) && Safe(s) && Typed(s) && TypedAction(a) && !Overflows(s, a)
    ensures Typed(Next(s, a))
  {
    StepAgreesIff(s, a);
    StepStockIff(s, a);
    NextKeepsTyped(Wrapping, s, a);
    NextKeepsIssuesInRange(s, a);
  }

  /** EXACTNESS OF RUNS: the machine run is the exact run, step by step, if and only if no
      sum of the run, neither of a bound check nor of a stock, exceeds 64 bits. */
  lemma {:induction false} RunsAgreeIffNothingOverflows(s: State, run: seq<Action>)
    requires Inv(s) && Safe(s) && Typed(s) && NoOverlapIn(s, run) && forall a | a in run :: TypedAction(a)
    ensures AgreesIn(s, run) <==> FitsIn(s, run)
    decreases run
  {
    if run != [] {
      assert run[0] in run && forall a | a in run[1..] :: a in run;
      StepAgreesIff(s, run[0]);
      if !Overflows(s, run[0]) {
        StepKeepsTyped(s, run[0]);
        NextKeepsInv(s, run[0]);
        InvIsTracked(s);
        assert NoOverlap(Next(s, run[0]));
        NextKeepsSafe(s, run[0]);
        RunsAgreeIffNothingOverflows(Next(s, run[0]), run[1..]);
      }
    }
  }

  // ---- sizes that suffice ----------------------------------------------------------------------------

  /** A return request plus the quantity of its issue is still a 64-bit integer. */
  ghost predicate RequestsFit(s: State) {
    forall c | c in s.calls && c.ReceiverChecked? :: c.ra.qty + c.tx.quantity <= MAX_INT
  }

  ghost predicate StockFits(s: State) {
    forall id :: Balance(s, OnlyItem(id)) <= MAX_INT
  }

  /** An item's quantity, even after the credit call `i` is about to give it, is in range. */
  lemma ShelfRoom(s: State, i: nat, k: nat)
    requires Inv(s) && Safe(s) && NoCreditStranded(s) && StockFits(s)
    requires i < |s.calls| && k < |s.books.items|
    ensures
      var it := s.books.items[k];
      0 <= it.quantity && it.quantity + AwaitingCreditW(OnlyItem(it.id))(s.calls[i]) <= MAX_INT
  {
    var sc := OnlyItem(s.books.items[k].id);
    SumDominates(s.books.items, k, StockW(sc));
    StockWithinIntroduced(s, sc);
    AwaitingWithinTotal(s, i, sc);
    assert Balance(s, sc) <= MAX_INT;
  }

  lemma SizesPreventOverflow(s: State, a: Action)
    requires Inv(s) && Safe(s) && NoCreditStranded(s) && RequestsFit(s) && StockFits(s)
    ensures !Overflows(s, a)
  {
    if a.Advance? && a.call < |s.calls| {
      var c := s.calls[a.call];
      assert CallOk(s.books, s.calls[a.call]) && c in s.calls;
      if c.BoundChecked? {
        var k := IndexBy(s.books.items, ItemKey, c.tx.itemId);
        if k < |s.books.items| {
          ShelfRoom(s, a.call, k);
        }
      } else if c.ReceiverChecked? {
        RecordedWithinIssue(s, c.ra.issueId, c.tx);
      }
    }
  }

  /** A run without overlapping returns, without a failed append of a return, and
      with requests of reasonable size. */
  ghost predicate Ordinary(s: State, run: seq<Action>)
    decreases run
  {
    && NoOverlap(s) && NoCreditStranded(s) && RequestsFit(s)
    && (run != [] ==> Ordinary(Next(s, run[0]), run[1..]))
  }

  lemma {:induction false} AdditionsNotNegative(s: State, run: seq<Action>, sc: Scope)
    ensures 0 <= AddedIn(s, run, sc)
    decreases run
  {
    if run != [] {
      AdditionsNotNegative(Next(s, run[0]), run[1..], sc);
    }
  }

  /** 64 BITS SUFFICE: in such a run, if everything ever introduced of each item fits
      in 64 bits, nothing overflows and the machine run is the exact run. */
  lemma {:induction false} NothingWraps(s: State, run: seq<Action>)
    requires Inv(s) && Safe(s) && Typed(s) && Ordinary(s, run) && forall a | a in run :: TypedAction(a)
    requires forall id :: Introduced(s, run, OnlyItem(id)) <= MAX_INT
    ensures FitsIn(s, run) && RunIn(Wrapping, s, run) == Run(s, run)
    decreases run
  {
    if run != [] {
      var s' := Next(s, run[0]);
      assert run[0] in run && forall a | a in run[1..] :: a in run;
      forall id ensures Balance(s, OnlyItem(id)) <= MAX_INT && Introduced(s', run[1..], OnlyItem(id)) <= MAX_INT {
        assert Introduced(s, run, OnlyItem(id)) <= MAX_INT;
        AdditionsNotNegative(s, run, OnlyItem(id));
        NextKeepsBalance(s, run[0], OnlyItem(id));
      }
      SizesPreventOverflow(s, run[0]);
      StepAgreesIff(s, run[0]);
      StepKeepsTyped(s, run[0]);
      NextKeepsInv(s, run[0]);
      InvIsTracked(s);
      assert NoOverlap(s');
      NextKeepsSafe(s, run[0]);
      NothingWraps(s', run[1..]);
    }
  }
}
