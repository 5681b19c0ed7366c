/** The protocol as the machine runs it: Go's `int` has 64 bits and wraps around. */
module Machine {
  import opened Models
  import opened Sums
  import opened Ledger
  import opened Records

  const TWO63 := 0x8000_0000_0000_0000
  const TWO64 := 0x1_0000_0000_0000_0000

  /** Two's complement wrap-around. */
  function Wrap(n: int): int { (n + TWO63) % TWO64 - TWO63 }

  lemma WrapExact(n: int)
    ensures InRange(Wrap(n))
    ensures InRange(n) <==> Wrap(n) == n
  {
  }

  /** One addition of two non-negative integers too many lands below zero. */
  lemma WrapOverflow(n: int)
    requires MAX_INT < n <= 2 * MAX_INT + 1
    ensures Wrap(n) == n - TWO64 < 0
  {
  }

  lemma WrapAbsorbs(m: int, n: int)
    ensures Wrap(Wrap(m) + n) == Wrap(m + n)
  {
    var k := (m + TWO63) / TWO64;
    assert Wrap(m) + n + TWO63 == m + n + TWO63 - k * TWO64;
    ModShift(m + n + TWO63, k);
  }

  lemma {:induction false} ModShift(x: int, k: int)
    ensures (x - k * TWO64) % TWO64 == x % TWO64
    decreases if k < 0 then -k else k
  {
    if k > 0 {
      ModShift(x - TWO64, k - 1);
      assert x - TWO64 - (k - 1) * TWO64 == x - k * TWO64;
      assert (x - TWO64) % TWO64 == x % TWO64;
    } else if k < 0 {
      ModShift(x + TWO64, k + 1);
      assert x + TWO64 - (k + 1) * TWO64 == x - k * TWO64;
      assert (x + TWO64) % TWO64 == x % TWO64;
    }
  }

  /** `totalReturned += r.QuantityReturned`, wrapping. */
  ghost function WrapSum(rets: seq<Return>, w: Return -> int): int {
    if rets == [] then 0 else Wrap(WrapSum(rets[..|rets| - 1], w) + w(rets[|rets| - 1]))
  }

  lemma {:induction false} WrapSumIsWrappedSum(rets: seq<Return>, w: Return -> int)
    ensures WrapSum(rets, w) == Wrap(Sum(rets, w))
  {
    if rets != [] {
      var init := rets[..|rets| - 1];
      WrapSumIsWrappedSum(init, w);
      WrapAbsorbs(Sum(init, w), w(rets[|rets| - 1]));
    }
  }

  // ---- the three steps that add or subtract --------------------------------------------

  function Debit64(items: seq<Item>, id: string, qty: int, disk: Disk): Result<(seq<Item>, Item)> {
    if disk.ReadFails? then Failure(StorageFailed) else
    var k := IndexBy(items, ItemKey, id);
    if k == |items| then Failure(ItemNotFound)
    else if qty < 0 then Failure(NegativeQuantity)
    else if Wrap(items[k].quantity - qty) < 0 then Failure(InsufficientStock)
    else if disk.WriteFails? then Failure(StorageFailed)
    else
      var it := items[k].(quantity := Wrap(items[k].quantity - qty));
      Success((items[k := it], it))
  }

  function Credit64(items: seq<Item>, id: string, qty: int, disk: Disk): Result<seq<Item>> {
    if qty < 0 then Failure(NegativeQuantity)
    else if disk.ReadFails? then Failure(StorageFailed) else
    var k := IndexBy(items, ItemKey, id);
    if k == |items| then Failure(ItemNotFound)
    else if disk.WriteFails? then Failure(StorageFailed)
    else Success(items[k := items[k].(quantity := Wrap(items[k].quantity + qty))])
  }

  ghost function CheckBound64(b: Books, a: ReturnArgs, tx: Transaction, e: Env): Call {
    if e.disk.ReadFails? then Rejected(StorageFailed)
    else if Wrap(WrapSum(b.rets, ReturnedForW(a.issueId)) + a.qty) > tx.quantity then Rejected(ReturnExceedsIssue)
    else BoundChecked(a, tx)
  }

  function TakeStock64(b: Books, a: IssueArgs, dept: string, itemName: string, e: Env): (Books, Call) {
    match Debit64(b.items, a.itemId, a.qty, e.disk)
    case Failure(err) => (b, Rejected(err))
    case Success(p) => (b.(items := p.0), Debited(a, dept, itemName))
  }

  function PutBack64(b: Books, a: ReturnArgs, tx: Transaction, e: Env): (Books, Call) {
    match Credit64(b.items, tx.itemId, a.qty, e.disk)
    case Failure(err) => (b, Rejected(err))
    case Success(items) => (b.(items := items), Credited(a, tx))
  }

  // ---- runs, in either arithmetic -----------------------------------------------------------

  datatype Arithmetic = Exact | Wrapping

  ghost function CheckBoundIn(ar: Arithmetic, b: Books, a: ReturnArgs, tx: Transaction, e: Env): Call {
    if ar.Exact? then CheckBound(b, a, tx, e) else CheckBound64(b, a, tx, e)
  }

  function TakeStockIn(ar: Arithmetic, b: Books, a: IssueArgs, dept: string, itemName: string, e: Env): (Books, Call) {
    if ar.Exact? then TakeStock(b, a, dept, itemName, e) else TakeStock64(b, a, dept, itemName, e)
  }

  function PutBackIn(ar: Arithmetic, b: Books, a: ReturnArgs, tx: Transaction, e: Env): (Books, Call) {
    if ar.Exact? then PutBack(b, a, tx, e) else PutBack64(b, a, tx, e)
  }

  /** One repository call; `StepIn(Exact, ..)` is `Step`. */
  ghost function StepIn(ar: Arithmetic, b: Books, c: Call, e: Env): (Books, Call) {
    match c
    case StockChecked(a, dept, itemName) => TakeStockIn(ar, b, a, dept, itemName, e)
    case ReceiverChecked(a, tx) => (b, CheckBoundIn(ar, b, a, tx, e))
    case BoundChecked(a, tx) => PutBackIn(ar, b, a, tx, e)
    case _ => Step(b, c, e)
  }

  ghost function NextIn(ar: Arithmetic, s: State, a: Action): State {
    if a.Advance? && a.call < |s.calls| then
      var (b, c) := StepIn(ar, s.books, s.calls[a.call], a.env);
      State(b, s.calls[a.call := c])
    else Next(s, a)
  }

  ghost function RunIn(ar: Arithmetic, s: State, run: seq<Action>): State
    decreases run
  {
    if run == [] then s else RunIn(ar, NextIn(ar, s, run[0]), run[1..])
  }

  lemma {:induction false} ExactRunIsRun(s: State, run: seq<Action>)
    ensures RunIn(Exact, s, run) == Run(s, run)
    decreases run
  {
    if run != [] {
      assert NextIn(Exact, s, run[0]) == Next(s, run[0]);
      ExactRunIsRun(Next(s, run[0]), run[1..]);
    }
  }

  lemma RunInCons(ar: Arithmetic, s: State, a: Action, rest: seq<Action>)
    ensures RunIn(ar, s, [a] + rest) == RunIn(ar, NextIn(ar, s, a), rest)
  {
    assert ([a] + rest)[1..] == rest;
  }

  /** A failing read is told as such at every one of the six reads, in either arithmetic. */
  lemma FailingReadsAreTold(ar: Arithmetic, b: Books, ia: IssueArgs, dept: string, ra: ReturnArgs, tx: Transaction,
                            e: Env)
    requires e.disk.ReadFails?
    ensures StepIn(ar, b, IssueAsked(ia), e) == (b, Rejected(StorageFailed))
    ensures StepIn(ar, b, IssuerChecked(ia), e) == (b, Rejected(StorageFailed))
    ensures StepIn(ar, b, RecipientRead(ia, dept), e) == (b, Rejected(StorageFailed))
    ensures StepIn(ar, b, ReturnAsked(ra), e) == (b, Rejected(StorageFailed))
    ensures StepIn(ar, b, IssueFound(ra, tx), e) == (b, Rejected(StorageFailed))
    ensures StepIn(ar, b, ReceiverChecked(ra, tx), e) == (b, Rejected(StorageFailed))
  {
  }

  // ---- when a step is exact ---------------------------------------------------------------------

  /** Every stock is a 64-bit integer and not negative. */
  ghost predicate StockInRange(items: seq<Item>) {
    forall k | 0 <= k < |items| :: 0 <= items[k].quantity <= MAX_INT
  }

  /** Taking from a stock that is not negative never wraps. */
  lemma DebitAgrees(items: seq<Item>, id: string, qty: int, disk: Disk)
    requires StockInRange(items)
    requires 0 <= qty <= MAX_INT
    ensures Debit64(items, id, qty, disk) == Debit(items, id, qty, disk)
  {
    var k := IndexBy(items, ItemKey, id);
    if k < |items| {
      WrapExact(items[k].quantity - qty);
    }
  }

  /** The stock found does not leave room for the credit. */
  predicate Overfills(items: seq<Item>, id: string, qty: int) {
    var k := IndexBy(items, ItemKey, id);
    k < |items| && MAX_INT < items[k].quantity + qty
  }

  /** A credit that goes through is exact if there is room; if not, it leaves a negative stock. */
  lemma CreditAgreesIff(items: seq<Item>, id: string, qty: int, disk: Disk)
    requires StockInRange(items)
    requires 0 <= qty <= MAX_INT
    ensures (Credit64(items, id, qty, disk) == Credit(items, id, qty, disk))
       <==> !(Credit(items, id, qty, disk).Success? && Overfills(items, id, qty))
    ensures Credit64(items, id, qty, disk).Success? <==> Credit(items, id, qty, disk).Success?
    ensures Credit64(items, id, qty, disk).Success? && Overfills(items, id, qty) ==>
              Credit64(items, id, qty, disk).value[IndexBy(items, ItemKey, id)].quantity < 0
  {
    var k := IndexBy(items, ItemKey, id);
    if k < |items| {
      WrapExact(items[k].quantity + qty);
      if MAX_INT < items[k].quantity + qty {
        WrapOverflow(items[k].quantity + qty);
        var e := items[k].(quantity := items[k].quantity + qty);
        var m := items[k].(quantity := Wrap(items[k].quantity + qty));
        assert items[k := e][k] == e && items[k := m][k] == m;
      }
    }
  }

  /** The bound check is exact exactly when its last sum does not overflow: an overflowing
      one is negative, and the excessive request passes. */
  lemma BoundAgreesIff(b: Books, a: ReturnArgs, tx: Transaction, e: Env)
    requires 0 <= Sum(b.rets, ReturnedForW(a.issueId)) <= MAX_INT && 0 <= a.qty <= MAX_INT
        && 0 <= tx.quantity <= MAX_INT
    requires !e.disk.ReadFails?
    ensures CheckBound64(b, a, tx, e).BoundChecked?
       <==> var sum := Sum(b.rets, ReturnedForW(a.issueId)) + a.qty; sum <= tx.quantity || MAX_INT < sum
    ensures CheckBound64(b, a, tx, e) == CheckBound(b, a, tx, e)
       <==> Sum(b.rets, ReturnedForW(a.issueId)) + a.qty <= MAX_INT
  {
    var total := Sum(b.rets, ReturnedForW(a.issueId));
    WrapSumIsWrappedSum(b.rets, ReturnedForW(a.issueId));
    WrapExact(total);
    WrapExact(total + a.qty);
    if MAX_INT < total + a.qty {
      WrapOverflow(total + a.qty);
    }
  }
}
