/** The rule "total returned cannot exceed the issued quantity" under interleaving.

    `ReturnItem` lists the recorded returns, compares, then credits the stock and
    appends its own row three repository calls later. Between the listing and the
    append its quantity is promised but invisible to other calls. */
module PartialReturns {
  import opened Models
  import opened Sums
  import opened Ledger
  import opened Conservation
  import opened Integrity

  /** Past the bound check, row not yet appended. */
  predicate Promised(c: Call) { c.BoundChecked? || c.Credited? }

  predicate InWindow(c: Call, id: string) { Promised(c) && c.ra.issueId == id }

  ghost function WindowW(id: string): Call -> int {
    (c: Call) => if InWindow(c, id) then c.ra.qty else 0
  }

  ghost function ReturnedFor(b: Books, id: string): int { Sum(b.rets, ReturnedForW(id)) }

  /** Recorded returns of an issue plus the quantities promised against it. */
  ghost function Reserved(s: State, id: string): int {
    ReturnedFor(s.books, id) + Sum(s.calls, WindowW(id))
  }

  ghost predicate WithinBound(b: Books) {
    forall i | 0 <= i < |b.issues| :: ReturnedFor(b, b.issues[i].id) <= b.issues[i].quantity
  }

  ghost predicate Safe(s: State) {
    forall i | 0 <= i < |s.books.issues| :: Reserved(s, s.books.issues[i].id) <= s.books.issues[i].quantity
  }

  /** No two calls are between the listing and the append for the same issue. */
  ghost predicate NoOverlap(s: State) {
    forall i, j | 0 <= i < j < |s.calls| ::
      Promised(s.calls[i]) && Promised(s.calls[j]) ==> s.calls[i].ra.issueId != s.calls[j].ra.issueId
  }

  ghost predicate NoOverlapIn(s: State, run: seq<Action>)
    decreases run
  {
    NoOverlap(s) && (run != [] ==> NoOverlapIn(Next(s, run[0]), run[1..]))
  }

  /** The step by which a call passes the bound check for the issue. */
  ghost predicate Enters(s: State, a: Action, id: string) {
    && a.Advance? && a.call < |s.calls| && s.calls[a.call].ReceiverChecked?
    && InWindow(Step(s.books, s.calls[a.call], a.env).1, id)
  }

  // ---- what the rule needs of the rows -------------------------------------------

  ghost predicate ReturnTracked(b: Books, r: Return) {
    Find(b.issues, IssueKey, r.transactionId).Some?
  }

  ghost predicate CallTracked(b: Books, c: Call) {
    && (c.Issuing() ==> 0 < c.ia.qty)
    && (c.Returning() ==> 0 < c.ra.qty)
    && (c.Returning() && !c.ReturnAsked? ==> Find(b.issues, IssueKey, c.ra.issueId) == Some(c.tx))
  }

  /** Issue IDs are distinct and every return names a recorded issue. Users, items and
      roles do not matter, so rows edited by hand may still satisfy this. */
  ghost predicate RowsTracked(b: Books) {
    KeysDistinct(b.issues, IssueKey) && forall i | 0 <= i < |b.rets| :: ReturnTracked(b, b.rets[i])
  }

  ghost predicate Tracked(s: State) {
    RowsTracked(s.books) && forall i | 0 <= i < |s.calls| :: CallTracked(s.books, s.calls[i])
  }

  lemma InvIsTracked(s: State)
    requires Inv(s)
    ensures Tracked(s)
  {
    forall i | 0 <= i < |s.books.rets| ensures ReturnTracked(s.books, s.books.rets[i]) {
      assert ReturnRefers(s.books, s.books.rets[i]);
    }
    forall i | 0 <= i < |s.calls| ensures CallTracked(s.books, s.calls[i]) {
      assert CallOk(s.books, s.calls[i]);
    }
  }

  lemma CallTrackedSurvives(b: Books, b': Books, c: Call)
    requires Grows(b, b') && CallTracked(b, c)
    ensures CallTracked(b', c)
  {
    if c.Returning() {
      LookupsSurvive(b, b', "", c.ra.issueId, "");
    }
  }

  lemma ReturnsStayTracked(b: Books, b': Books, n: nat)
    requires Grows(b, b') && RowsTracked(b) && n <= |b.rets|
    ensures forall i | 0 <= i < n :: ReturnTracked(b', b'.rets[i])
  {
    forall i | 0 <= i < n ensures ReturnTracked(b', b'.rets[i]) {
      assert ReturnTracked(b, b.rets[i]) && b'.rets[i] == b.rets[i];
      LookupsSurvive(b, b', "", b.rets[i].transactionId, "");
    }
  }

  lemma StepCallTracked(b: Books, c: Call, e: Env)
    requires CallTracked(b, c)
    ensures CallTracked(Step(b, c, e).0, Step(b, c, e).1)
  {
    if c.Issuing() {
      IssueStepTracked(b, c, e);
    } else if c.Returning() {
      StepGrows(b, c, e);
      CallTrackedSurvives(b, Step(b, c, e).0, c);
      ReturnStepTracked(b, c, e);
    }
  }

  lemma IssueStepTracked(b: Books, c: Call, e: Env)
    requires CallTracked(b, c) && c.Issuing()
    ensures CallTracked(Step(b, c, e).0, Step(b, c, e).1)
  {
  }

  lemma ReturnStepTracked(b: Books, c: Call, e: Env)
    requires CallTracked(b, c) && c.Returning() && CallTracked(Step(b, c, e).0, c)
    ensures CallTracked(Step(b, c, e).0, Step(b, c, e).1)
  {
  }

  lemma StepKeepsTracked(b: Books, c: Call, e: Env)
    requires RowsTracked(b) && CallTracked(b, c)
    ensures RowsTracked(Step(b, c, e).0) && CallTracked(Step(b, c, e).0, Step(b, c, e).1)
  {
    StepCallTracked(b, c, e);
    StepGrows(b, c, e);
    ReturnsStayTracked(b, Step(b, c, e).0, |b.rets|);
    if c.Debited? && Step(b, c, e).1.Issued? {
      AppendKeepsKeysDistinct(b.issues, IssueKey, IssueRow(c.ia, c.dept, c.itemName, e), e.disk);
    } else if c.Credited? && Step(b, c, e).1.Returned? {
      assert Step(b, c, e).0 == b.(rets := b.rets + [ReturnRow(c.ra, c.tx, e)]);
    } else {
      assert Step(b, c, e).0.rets == b.rets && Step(b, c, e).0.issues == b.issues;
    }
  }

  lemma NextKeepsTracked(s: State, a: Action)
    requires Tracked(s)
    ensures Tracked(Next(s, a))
  {
    var s' := Next(s, a);
    NextGrows(s, a);
    if a.Advance? && a.call < |s.calls| {
      StepKeepsTracked(s.books, s.calls[a.call], a.env);
    }
    forall i | 0 <= i < |s'.calls| ensures CallTracked(s'.books, s'.calls[i]) {
      if i < |s.calls| && !(a.Advance? && a.call == i) {
        CallTrackedSurvives(s.books, s'.books, s.calls[i]);
      }
    }
    if !(a.Advance? && a.call < |s.calls|) {
      assert s'.books.issues == s.books.issues && s'.books.rets == s.books.rets;
      forall i | 0 <= i < |s'.books.rets| ensures ReturnTracked(s'.books, s'.books.rets[i]) {
        assert ReturnTracked(s.books, s.books.rets[i]);
      }
    }
  }

  // ---- how one step changes a reservation --------------------------------------

  lemma PromiseFacts(s: State, c: Call)
    requires Tracked(s) && c in s.calls && Promised(c)
    ensures 0 < c.ra.qty && c.tx in s.books.issues && c.tx.id == c.ra.issueId
    ensures Find(s.books.issues, IssueKey, c.ra.issueId) == Some(c.tx)
  {
    var i :| 0 <= i < |s.calls| && s.calls[i] == c;
    assert CallTracked(s.books, s.calls[i]);
  }

  lemma PromisesCountPositive(s: State, id: string)
    requires Tracked(s)
    ensures forall c | c in s.calls :: 0 <= WindowW(id)(c)
    ensures 0 <= Sum(s.calls, WindowW(id))
  {
    forall c | c in s.calls && InWindow(c, id) ensures 0 <= WindowW(id)(c) {
      PromiseFacts(s, c);
    }
    SumNonNegative(s.calls, WindowW(id));
  }

  ghost predicate ReservationMoves(s: State, a: Action, id: string) {
    if Enters(s, a, id) then
      var c := s.calls[a.call];
      && Reserved(Next(s, a), id) == Reserved(s, id) + c.ra.qty
      && Next(s, a).books == s.books && c.ra.issueId == id
      && ReturnedFor(s.books, id) + c.ra.qty <= c.tx.quantity
    else Reserved(Next(s, a), id) <= Reserved(s, id)
  }

  lemma AdvanceReserved(s: State, i: nat, e: Env, id: string)
    requires Tracked(s) && i < |s.calls|
    ensures ReservationMoves(s, Advance(i, e), id)
  {
    var c := s.calls[i];
    assert CallTracked(s.books, c);
    StepReserved(s.books, c, e, id);
    var (b', c') := Step(s.books, c, e);
    SumUpdate(s.calls, i, c', WindowW(id));
    assert Next(s, Advance(i, e)) == State(b', s.calls[i := c']);
  }

  lemma IdleReserved(s: State, a: Action, id: string)
    requires a.AddItem? || a.AddUser? || (a.Advance? && |s.calls| <= a.call)
    ensures ReservationMoves(s, a, id)
  {
    assert Next(s, a).calls == s.calls && Next(s, a).books.rets == s.books.rets;
  }

  lemma BeginReserved(s: State, a: Action, id: string)
    requires a.BeginIssue? || a.BeginReturn?
    ensures ReservationMoves(s, a, id)
  {
    var c := if a.BeginIssue? then StartIssue(a.ia) else StartReturn(a.ra);
    assert Next(s, a) == State(s.books, s.calls + [c]);
    SumAppend(s.calls, c, WindowW(id));
  }

  /** Only the step past the bound check raises a reservation, and by what it admits. */
  lemma NextReserved(s: State, a: Action, id: string)
    requires Tracked(s)
    ensures ReservationMoves(s, a, id)
  {
    if a.BeginIssue? || a.BeginReturn? {
      BeginReserved(s, a, id);
    } else if a.Advance? && a.call < |s.calls| {
      AdvanceReserved(s, a.call, a.env, id);
    } else {
      IdleReserved(s, a, id);
    }
  }

  lemma StepReserved(b: Books, c: Call, e: Env, id: string)
    requires CallTracked(b, c)
    ensures
      var (b', c') := Step(b, c, e);
      var change := ReturnedFor(b', id) + WindowW(id)(c') - ReturnedFor(b, id) - WindowW(id)(c);
      if c.ReceiverChecked? && InWindow(c', id) then
        change == c.ra.qty && b' == b && c.ra.issueId == id && ReturnedFor(b, id) + c.ra.qty <= c.tx.quantity
      else change <= 0
  {
    if c.Credited? {
      SumAppend(b.rets, ReturnRow(c.ra, c.tx, e), ReturnedForW(id));
    } else if c.StockChecked? || c.Debited? || c.BoundChecked? {
      assert Step(b, c, e).0.rets == b.rets;
    } else {
      assert Step(b, c, e).0 == b;
    }
  }

  lemma UnknownIssueReservesNothing(s: State, id: string)
    requires Tracked(s) && Find(s.books.issues, IssueKey, id).None?
    ensures Reserved(s, id) == 0
  {
    FindNone(s.books.issues, IssueKey, id);
    forall r | r in s.books.rets ensures ReturnedForW(id)(r) == 0 {
      var i :| 0 <= i < |s.books.rets| && s.books.rets[i] == r;
      assert ReturnTracked(s.books, s.books.rets[i]);
    }
    SumZero(s.books.rets, ReturnedForW(id));
    forall c | c in s.calls && InWindow(c, id) ensures false {
      PromiseFacts(s, c);
    }
    SumZero(s.calls, WindowW(id));
  }

  // ---- without overlap the bound holds ------------------------------------------

  /** A call that enters an issue's window without overlap finds it empty. */
  lemma EnteredAlone(s: State, a: Action, id: string)
    requires Enters(s, a, id) && NoOverlap(Next(s, a))
    ensures Reserved(s, id) == ReturnedFor(s.books, id)
  {
    var c' := Step(s.books, s.calls[a.call], a.env).1;
    assert Next(s, a).calls == s.calls[a.call := c'];
    AloneInWindow(s.calls, a.call, c', id);
  }

  lemma AloneInWindow(calls: seq<Call>, i: nat, c: Call, id: string)
    requires i < |calls| && !Promised(calls[i]) && InWindow(c, id)
    requires NoOverlap(State(Books([], [], [], []), calls[i := c]))
    ensures Sum(calls, WindowW(id)) == 0
  {
    var calls' := calls[i := c];
    forall x | x in calls ensures WindowW(id)(x) == 0 {
      var j :| 0 <= j < |calls| && calls[j] == x;
      assert Promised(calls'[i]) && (j != i ==> calls'[j] == x);
    }
    SumZero(calls, WindowW(id));
  }

  lemma NextKeepsSafe(s: State, a: Action)
    requires Tracked(s) && Safe(s) && NoOverlap(Next(s, a))
    ensures Safe(Next(s, a))
  {
    var s' := Next(s, a);
    NextGrows(s, a);
    NextKeepsTracked(s, a);
    forall i | 0 <= i < |s'.books.issues| ensures Reserved(s', s'.books.issues[i].id) <= s'.books.issues[i].quantity {
      var tx := s'.books.issues[i];
      NextReserved(s, a, tx.id);
      if i < |s.books.issues| {
        assert s.books.issues[i] == tx;
        if Enters(s, a, tx.id) {
          EnteredAlone(s, a, tx.id);
          assert CallTracked(s.books, s.calls[a.call]);
          FindUnique(s.books.issues, IssueKey, i);
        }
      } else {
        NewIssueIsPositive(s, a, i);
        NewIssueIsUnknown(s.books, s'.books, i);
        UnknownIssueReservesNothing(s, tx.id);
      }
    }
  }

  lemma NewIssueIsPositive(s: State, a: Action, i: nat)
    requires Tracked(s) && |s.books.issues| <= i < |Next(s, a).books.issues|
    ensures 0 < Next(s, a).books.issues[i].quantity
  {
    assert CallTracked(s.books, s.calls[a.call]);
  }

  lemma NewIssueIsUnknown(b: Books, b': Books, i: nat)
    requires Grows(b, b') && KeysDistinct(b'.issues, IssueKey) && |b.issues| <= i < |b'.issues|
    ensures Find(b.issues, IssueKey, b'.issues[i].id).None?
  {
    forall x | x in b.issues ensures IssueKey(x) != b'.issues[i].id {
      var j :| 0 <= j < |b.issues| && b.issues[j] == x;
      assert b'.issues[j] == x && IssueKey(b'.issues[j]) != IssueKey(b'.issues[i]);
    }
    FindNone(b.issues, IssueKey, b'.issues[i].id);
  }

  lemma SafeIsWithinBound(s: State)
    requires Tracked(s) && Safe(s)
    ensures WithinBound(s.books)
  {
    forall i | 0 <= i < |s.books.issues|
      ensures ReturnedFor(s.books, s.books.issues[i].id) <= s.books.issues[i].quantity
    {
      PromisesCountPositive(s, s.books.issues[i].id);
    }
  }

  /** PARTIAL-RETURN BOUND: recorded returns never exceed the issue, in every run
      in which no two returns of one issue overlap between listing and append.
      Issues, additions and returns of other issues interleave freely. */
  lemma {:induction false} ReturnsNeverExceedIssue(s: State, run: seq<Action>)
    requires Tracked(s) && Safe(s) && NoOverlapIn(s, run)
    ensures Tracked(Run(s, run)) && Safe(Run(s, run)) && WithinBound(Run(s, run).books)
    decreases run
  {
    if run == [] {
      SafeIsWithinBound(s);
    } else {
      NextKeepsTracked(s, run[0]);
      NextKeepsSafe(s, run[0]);
      ReturnsNeverExceedIssue(Next(s, run[0]), run[1..]);
    }
  }

  /** Rows without returns are within the bound, whoever issued what to whom. */
  lemma NoReturnsIsSafe(b: Books)
    requires KeysDistinct(b.issues, IssueKey) && b.rets == []
    requires forall i | 0 <= i < |b.issues| :: 0 <= b.issues[i].quantity
    ensures Tracked(State(b, [])) && Safe(State(b, []))
  {
  }

  lemma SeedIsSafe()
    ensures Safe(State(Seed(), []))
  {
    SeedKeysDistinct();
    NoReturnsIsSafe(Seed());
  }

  /** One service call at a time. */
  ghost predicate Sequential(s: State) {
    forall i, j | 0 <= i < j < |s.calls| :: s.calls[i].Done() || s.calls[j].Done()
  }

  ghost predicate SequentialIn(s: State, run: seq<Action>)
    decreases run
  {
    Sequential(s) && (run != [] ==> SequentialIn(Next(s, run[0]), run[1..]))
  }

  lemma {:induction false} SequentialNeverOverlaps(s: State, run: seq<Action>)
    requires SequentialIn(s, run)
    ensures NoOverlapIn(s, run)
    decreases run
  {
    if run != [] {
      SequentialNeverOverlaps(Next(s, run[0]), run[1..]);
    }
  }

  // ---- with overlap it can fail: exactly when -------------------------------------

  /** The bound check sees recorded returns only. It admits nothing too much, for
      every quantity it might be asked about, exactly when no other return of the
      same issue is in its window or the issue is fully returned already. */
  lemma BoundCheckExactIffAlone(s: State, k: nat)
    requires Tracked(s) && k < |s.books.issues|
    ensures
      var tx := s.books.issues[k];
      (forall a: ReturnArgs, e: Env | a.issueId == tx.id && 0 < a.qty && CheckBound(s.books, a, tx, e).BoundChecked? ::
         Reserved(s, tx.id) + a.qty <= tx.quantity)
      <==> (forall c | c in s.calls :: !InWindow(c, tx.id)) || tx.quantity <= ReturnedFor(s.books, tx.id)
  {
    var tx := s.books.issues[k];
    if forall c | c in s.calls :: !InWindow(c, tx.id) {
      SumZero(s.calls, WindowW(tx.id));
    } else if ReturnedFor(s.books, tx.id) < tx.quantity {
      var i :| 0 <= i < |s.calls| && InWindow(s.calls[i], tx.id);
      PromiseIsReserved(s, i, tx.id);
      var a := ReturnArgs(tx.id, tx.quantity - ReturnedFor(s.books, tx.id), "", "");
      assert CheckBound(s.books, a, tx, Env(Works, "", "")).BoundChecked?;
    }
  }

  lemma PromiseIsReserved(s: State, i: nat, id: string)
    requires Tracked(s) && i < |s.calls| && InWindow(s.calls[i], id)
    ensures ReturnedFor(s.books, id) < Reserved(s, id)
  {
    PromisesCountPositive(s, id);
    SumDominates(s.calls, i, WindowW(id));
    PromiseFacts(s, s.calls[i]);
  }

  /** No step of the run lets another call into the issue's window. */
  ghost predicate NoEntry(s: State, run: seq<Action>, id: string)
    decreases run
  {
    run != [] ==> !Enters(s, run[0], id) && NoEntry(Next(s, run[0]), run[1..], id)
  }

  lemma {:induction false} ReservationNeverGrows(s: State, run: seq<Action>, id: string)
    requires Tracked(s) && NoEntry(s, run, id)
    ensures Tracked(Run(s, run)) && Reserved(Run(s, run), id) <= Reserved(s, id)
    decreases run
  {
    if run != [] {
      NextKeepsTracked(s, run[0]);
      NextReserved(s, run[0], id);
      ReservationNeverGrows(Next(s, run[0]), run[1..], id);
    }
  }

  ghost function WorkW(id: string): Call -> int {
    (c: Call) => if InWindow(c, id) then c.Left() else 0
  }

  lemma {:induction false} FreshReturnId(rets: seq<Return>) returns (id: string)
    ensures forall r | r in rets :: |r.id| < |id|
    ensures Find(rets, ReturnKey, id).None?
  {
    if rets == [] {
      id := "";
    } else {
      var last := rets[|rets| - 1];
      var id0 := FreshReturnId(rets[..|rets| - 1]);
      id := id0 + last.id + "x";
      assert forall r | r in rets :: r in rets[..|rets| - 1] || r == last;
    }
    FindNone(rets, ReturnKey, id);
  }

  /** `c` moves one step on within its window, or out of it by recording its row. */
  ghost predicate MovesOn(b: Books, c: Call, e: Env, id: string) {
    var (b', c') := Step(b, c, e);
    && c'.Left() < c.Left() && (InWindow(c', id) || c'.Returned?)
    && ReturnedFor(b', id) + WindowW(id)(c') == ReturnedFor(b, id) + WindowW(id)(c)
  }

  lemma IssuedItemExists(b: Books, tx: Transaction)
    requires BooksOk(b) && tx in b.issues
    ensures ItemExists(b.items, tx.itemId)
  {
    var i :| 0 <= i < |b.issues| && b.issues[i] == tx;
    assert IssueRefers(b, b.issues[i]);
  }

  lemma CreditWorks(b: Books, c: Call, id: string)
    requires c.BoundChecked? && InWindow(c, id) && 0 < c.ra.qty && ItemExists(b.items, c.tx.itemId)
    ensures MovesOn(b, c, Env(Works, "", ""), id)
  {
    assert Credit(b.items, c.tx.itemId, c.ra.qty, Works).Success?;
  }

  lemma RecordWorks(b: Books, c: Call, id: string, newId: string)
    requires c.Credited? && InWindow(c, id) && Find(b.rets, ReturnKey, newId).None?
    ensures MovesOn(b, c, Env(Works, newId, ""), id)
  {
    var row := ReturnRow(c.ra, c.tx, Env(Works, newId, ""));
    assert Step(b, c, Env(Works, newId, "")) == (b.(rets := b.rets + [row]), Returned(row));
    SumAppend(b.rets, row, ReturnedForW(id));
  }

  lemma WindowStepWorks(b: Books, c: Call, id: string) returns (e: Env)
    requires BooksOk(b) && CallOk(b, c) && InWindow(c, id)
    ensures MovesOn(b, c, e, id)
  {
    if c.Credited? {
      var newId := FreshReturnId(b.rets);
      RecordWorks(b, c, id, newId);
      e := Env(Works, newId, "");
    } else {
      IssuedItemExists(b, c.tx);
      CreditWorks(b, c, id);
      e := Env(Works, "", "");
    }
  }

  lemma MovingOn(s: State, i: nat, e: Env, id: string)
    requires i < |s.calls| && InWindow(s.calls[i], id) && MovesOn(s.books, s.calls[i], e, id)
    ensures !Enters(s, Advance(i, e), id)
    ensures Reserved(Next(s, Advance(i, e)), id) == Reserved(s, id)
    ensures 0 <= Sum(Next(s, Advance(i, e)).calls, WorkW(id)) < Sum(s.calls, WorkW(id))
  {
    var (b', c') := Step(s.books, s.calls[i], e);
    assert Next(s, Advance(i, e)) == State(b', s.calls[i := c']);
    SumUpdate(s.calls, i, c', WindowW(id));
    WorkDrops(s.calls, i, c', id);
  }

  lemma DrainStep(s: State, id: string, i: nat) returns (a: Action)
    requires Inv(s) && i < |s.calls| && InWindow(s.calls[i], id)
    ensures !Enters(s, a, id) && Inv(Next(s, a))
    ensures Reserved(Next(s, a), id) == Reserved(s, id)
    ensures 0 <= Sum(Next(s, a).calls, WorkW(id)) < Sum(s.calls, WorkW(id))
  {
    assert CallOk(s.books, s.calls[i]);
    var e := WindowStepWorks(s.books, s.calls[i], id);
    a := Advance(i, e);
    MovingOn(s, i, e, id);
    NextKeepsInv(s, a);
  }

  lemma WorkDrops(calls: seq<Call>, i: nat, c: Call, id: string)
    requires i < |calls| && InWindow(calls[i], id) && c.Left() < calls[i].Left()
    ensures 0 <= Sum(calls[i := c], WorkW(id)) < Sum(calls, WorkW(id))
  {
    SumUpdate(calls, i, c, WorkW(id));
    SumNonNegative(calls[i := c], WorkW(id));
  }

  /** Letting every call in the window finish turns all promises into rows. */
  lemma {:induction false} DrainWindow(s: State, id: string) returns (run: seq<Action>)
    requires Inv(s)
    ensures NoEntry(s, run, id)
    ensures ReturnedFor(Run(s, run).books, id) == Reserved(s, id)
    decreases Sum(s.calls, WorkW(id))
  {
    if forall c | c in s.calls :: !InWindow(c, id) {
      SumZero(s.calls, WindowW(id));
      run := [];
    } else {
      var i :| 0 <= i < |s.calls| && InWindow(s.calls[i], id);
      var a := DrainStep(s, id, i);
      var rest := DrainWindow(Next(s, a), id);
      run := [a] + rest;
      assert run[1..] == rest;
    }
  }

  /** EXACT CONDITION: from a state with calls in flight, every way of finishing
      them (any schedule that lets no further return of this issue past its bound
      check) keeps the bound if and only if what is recorded plus what is already
      promised fits in the issue. */
  lemma BoundSurvivesIffReservationFits(s: State, k: nat)
    requires Inv(s) && k < |s.books.issues|
    ensures
      var tx := s.books.issues[k];
      (forall run | NoEntry(s, run, tx.id) :: ReturnedFor(Run(s, run).books, tx.id) <= tx.quantity)
      <==> Reserved(s, tx.id) <= tx.quantity
  {
    var tx := s.books.issues[k];
    InvIsTracked(s);
    if Reserved(s, tx.id) <= tx.quantity {
      forall run | NoEntry(s, run, tx.id) ensures ReturnedFor(Run(s, run).books, tx.id) <= tx.quantity {
        ReservationNeverGrows(s, run, tx.id);
        PromisesCountPositive(Run(s, run), tx.id);
      }
    } else {
      var run := DrainWindow(s, tx.id);
    }
  }

  // ---- the failure is reachable from everywhere -----------------------------------

  /** A return of at most what the records leave open reaches its window undisturbed. */
  lemma OpenReturn(s: State, a: ReturnArgs, tx: Transaction) returns (run: seq<Action>)
    requires a.issueId != "" && a.returner != "" && a.receiver != "" && 0 < a.qty
    requires Find(s.books.issues, IssueKey, a.issueId) == Some(tx)
    requires IsWarehouse(s.books.users, a.receiver)
    requires ReturnedFor(s.books, a.issueId) + a.qty <= tx.quantity
    ensures Run(s, run) == State(s.books, s.calls + [BoundChecked(a, tx)])
  {
    var e := Env(Works, "", "");
    var i := |s.calls|;
    run := [BeginReturn(a), Advance(i, e), Advance(i, e), Advance(i, e)];
    var s1, s2, s3 := State(s.books, s.calls + [ReturnAsked(a)]), State(s.books, s.calls + [IssueFound(a, tx)]),
                      State(s.books, s.calls + [ReceiverChecked(a, tx)]);
    var s4 := State(s.books, s.calls + [BoundChecked(a, tx)]);
    assert Next(s, run[0]) == s1;
    assert Next(s1, run[1]) == s2;
    assert Next(s2, run[2]) == s3;
    assert Next(s3, run[3]) == s4;
    assert run == [run[0]] + ([run[1]] + ([run[2]] + ([run[3]] + [])));
    RunCons(s, run[0], [run[1]] + ([run[2]] + ([run[3]] + [])));
    RunCons(s1, run[1], [run[2]] + ([run[3]] + []));
    RunCons(s2, run[2], [run[3]] + []);
    RunCons(s3, run[3], []);
  }

  /** Whatever the state, two overlapping returns can over-return any issue that is
      still open: the bound is a property of the schedule, not of the code alone. */
  lemma OverlapCanExceedIssue(s: State, k: nat, returner: string, receiver: string) returns (run: seq<Action>)
    requires Inv(s) && k < |s.books.issues| && s.books.issues[k].id != ""
    requires ReturnedFor(s.books, s.books.issues[k].id) < s.books.issues[k].quantity
    requires returner != "" && receiver != "" && IsWarehouse(s.books.users, receiver)
    ensures ReturnedFor(Run(s, run).books, s.books.issues[k].id) > s.books.issues[k].quantity
  {
    var tx := s.books.issues[k];
    FindUnique(s.books.issues, IssueKey, k);
    var a := ReturnArgs(tx.id, tx.quantity - ReturnedFor(s.books, tx.id), returner, receiver);
    var r1 := OpenReturn(s, a, tx);
    var s1 := Run(s, r1);
    var r2 := OpenReturn(s1, a, tx);
    var s2 := Run(s1, r2);
    InvIsTracked(s);
    PromisesCountPositive(s, tx.id);
    SumAppend(s.calls, BoundChecked(a, tx), WindowW(tx.id));
    SumAppend(s1.calls, BoundChecked(a, tx), WindowW(tx.id));
    BooksStayConsistent(s, r1);
    BooksStayConsistent(s1, r2);
    var r3 := DrainWindow(s2, tx.id);
    RunConcat(s, r1, r2);
    RunConcat(s, r1 + r2, r3);
    run := r1 + r2 + r3;
  }
}
