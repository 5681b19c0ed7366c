/** The rows behind the dashboard: which rows count under the filters, said with the
    repository's lookups instead of the page's maps, and what each chart makes of them. */
module DashboardRows {
  import opened Models
  import opened Sums
  import opened Ordering
  import opened Dates
  import opened Ledger
  import opened Integrity
  import opened DashboardModel
  import opened Dashboard

  // ---- which rows count ------------------------------------------------------------------

  /** Inside the window, both ends included; a row without a stamp is in none. */
  ghost predicate DayCounts(stamp: string, f: Filter) {
    var day := if |stamp| < 10 then stamp else stamp[..10];
    && day != ""
    && (f.from == "" || StrLeq(f.from, day))
    && (f.upto == "" || StrLeq(day, f.upto))
  }

  /** The person filters: the employee named, and the department the users file gives them. */
  ghost predicate PersonCounts(userId: string, users: seq<User>, f: Filter) {
    var u := Find(users, UserKey, userId);
    && (f.employee == "" || userId == f.employee)
    && (f.department == "" || (u.Some? && u.value.departmentId == f.department))
  }

  lemma WindowIsInclusive(stamp: string, f: Filter)
    ensures WithinDateRange(DateKey(stamp), f.from, f.upto) <==> DayCounts(stamp, f)
  {
    StrTotal(DateKey(stamp), f.from);
    StrTotal(DateKey(stamp), f.upto);
  }

  lemma DepartmentIsTheUsers(users: seq<User>, userId: string, f: Filter)
    requires KeysDistinct(users, UserKey) && f.department != ""
    ensures
      var u := Find(users, UserKey, userId);
      Lookup(ByKey(users, UserKey), userId, NO_USER).departmentId == f.department
      <==> u.Some? && u.value.departmentId == f.department
  {
    ByKeyAgreesWithFind(users, users, UserKey, userId);
  }

  /** FILTERS ON ISSUES: an issue counts exactly when its day, its recipient, the recipient's
      stored department and its item pass. */
  lemma IssueCountsIff(tx: Transaction, users: seq<User>, f: Filter)
    requires KeysDistinct(users, UserKey)
    ensures KeepsIssue(tx, ByKey(users, UserKey), f) <==>
              && DayCounts(tx.timestamp, f) && PersonCounts(tx.issuedToUserId, users, f)
              && (f.item == "" || tx.itemId == f.item)
  {
    WindowIsInclusive(tx.timestamp, f);
    if f.department != "" {
      DepartmentIsTheUsers(users, tx.issuedToUserId, f);
    }
  }

  /** The item a return is shown under: its issue's, unless there is none or it has none. */
  lemma ReturnItemIs(r: Return, txs: seq<Transaction>)
    requires KeysDistinct(txs, IssueKey)
    ensures
      var tx := Find(txs, IssueKey, r.transactionId);
      ItemOfReturn(r, ByKey(txs, IssueKey)) == if tx.Some? && tx.value.itemId != "" then tx.value.itemId else r.itemId
  {
    ByKeyAgreesWithFind(txs, txs, IssueKey, r.transactionId);
  }

  /** FILTERS ON RETURNS: the day, who returned it, their department and the item. */
  lemma ReturnCountsIff(r: Return, txs: seq<Transaction>, users: seq<User>, f: Filter)
    requires KeysDistinct(users, UserKey) && KeysDistinct(txs, IssueKey)
    ensures
      var tx := Find(txs, IssueKey, r.transactionId);
      KeepsReturn(r, ByKey(users, UserKey), ByKey(txs, IssueKey), f) <==>
        && DayCounts(r.timestamp, f) && PersonCounts(r.returnedByUserId, users, f)
        && (f.item == "" || f.item == if tx.Some? && tx.value.itemId != "" then tx.value.itemId else r.itemId)
  {
    WindowIsInclusive(r.timestamp, f);
    if f.department != "" {
      DepartmentIsTheUsers(users, r.returnedByUserId, f);
    }
    ReturnItemIs(r, txs);
  }

  /** The label of a recipient: the department's name, else its ID, else "N/A". */
  lemma DepartmentLabelIs(users: seq<User>, depts: seq<Department>, userId: string)
    requires KeysDistinct(users, UserKey) && KeysDistinct(depts, DepartmentKey)
    ensures
      var u := Find(users, UserKey, userId);
      var dept := Find(depts, DepartmentKey, if u.Some? then u.value.departmentId else "");
      DeptLabel(ByKey(users, UserKey), ByKey(depts, DepartmentKey), userId) ==
        if dept.Some? && dept.value.name != "" then dept.value.name
        else if u.Some? && u.value.departmentId != "" then u.value.departmentId
        else "N/A"
  {
    ByKeyAgreesWithFind(users, users, UserKey, userId);
    var u := Find(users, UserKey, userId);
    ByKeyAgreesWithFind(depts, depts, DepartmentKey, if u.Some? then u.value.departmentId else "");
  }

  // ---- events are rows ----------------------------------------------------------------------

  ghost function OverIssues(um: map<string, User>, f: Filter, w: Event -> int): Transaction -> int {
    (tx: Transaction) => if KeepsIssue(tx, um, f) then w(IssueEvent(tx, um)) else 0
  }

  ghost function OverReturns(um: map<string, User>, im: map<string, Transaction>, f: Filter,
                             w: Event -> int): Return -> int {
    (r: Return) => if KeepsReturn(r, um, im, f) then w(ReturnEvent(r, um, im)) else 0
  }

  lemma {:induction false} IssueEventsSum(txs: seq<Transaction>, um: map<string, User>, f: Filter, w: Event -> int)
    ensures Sum(IssueEvents(txs, um, f), w) == Sum(txs, OverIssues(um, f, w))
  {
    if txs != [] {
      IssueEventsSum(txs[..|txs| - 1], um, f, w);
      SumAppend(IssueEvents(txs[..|txs| - 1], um, f), IssueEvent(txs[|txs| - 1], um), w);
    }
  }

  lemma {:induction false} ReturnEventsSum(rets: seq<Return>, um: map<string, User>, im: map<string, Transaction>,
                                           f: Filter, w: Event -> int)
    ensures Sum(ReturnEvents(rets, um, im, f), w) == Sum(rets, OverReturns(um, im, f, w))
  {
    if rets != [] {
      ReturnEventsSum(rets[..|rets| - 1], um, im, f, w);
      SumAppend(ReturnEvents(rets[..|rets| - 1], um, im, f), ReturnEvent(rets[|rets| - 1], um, im), w);
    }
  }

  lemma {:induction false} IssueEventsAreRows(txs: seq<Transaction>, um: map<string, User>, f: Filter, e: Event)
    ensures e in IssueEvents(txs, um, f) <==> exists tx :: tx in txs && KeepsIssue(tx, um, f) && e == IssueEvent(tx, um)
  {
    if txs != [] {
      var init, last := txs[..|txs| - 1], txs[|txs| - 1];
      IssueEventsAreRows(init, um, f, e);
      assert forall tx :: tx in txs <==> tx in init || tx == last;
    }
  }

  lemma {:induction false} ReturnEventsAreRows(rets: seq<Return>, um: map<string, User>, im: map<string, Transaction>,
                                               f: Filter, e: Event)
    ensures e in ReturnEvents(rets, um, im, f)
        <==> exists r :: r in rets && KeepsReturn(r, um, im, f) && e == ReturnEvent(r, um, im)
  {
    if rets != [] {
      var init, last := rets[..|rets| - 1], rets[|rets| - 1];
      ReturnEventsAreRows(init, um, im, f, e);
      assert forall r :: r in rets <==> r in init || r == last;
    }
  }

  // ---- the series -----------------------------------------------------------------------------

  /** One per issue that counts and falls on the day; its quantity; the same for returns. */
  ghost function IssuesOn(um: map<string, User>, f: Filter, day: string): Transaction -> int {
    (tx: Transaction) => if KeepsIssue(tx, um, f) && DateKey(tx.timestamp) == day then 1 else 0
  }

  ghost function IssuedOn(um: map<string, User>, f: Filter, day: string): Transaction -> int {
    (tx: Transaction) => if KeepsIssue(tx, um, f) && DateKey(tx.timestamp) == day then tx.quantity else 0
  }

  ghost function ReturnsOn(um: map<string, User>, im: map<string, Transaction>, f: Filter, day: string): Return -> int {
    (r: Return) => if KeepsReturn(r, um, im, f) && DateKey(r.timestamp) == day then 1 else 0
  }

  ghost function ReturnedOn(um: map<string, User>, im: map<string, Transaction>, f: Filter,
                            day: string): Return -> int {
    (r: Return) => if KeepsReturn(r, um, im, f) && DateKey(r.timestamp) == day then r.quantityReturned else 0
  }

  lemma IssueOnDay(tx: Transaction, um: map<string, User>, f: Filter, day: string)
    ensures OverIssues(um, f, At(DateOf, IssueCount, day))(tx) == IssuesOn(um, f, day)(tx)
    ensures OverIssues(um, f, At(DateOf, ReturnCount, day))(tx) == 0
    ensures OverIssues(um, f, At(DateOf, Quantity, day))(tx) == IssuedOn(um, f, day)(tx)
  {
    var e := IssueEvent(tx, um);
    assert DateOf(e) == DateKey(tx.timestamp) && IssueCount(e) == 1 && ReturnCount(e) == 0
        && Quantity(e) == tx.quantity;
  }

  lemma ReturnOnDay(r: Return, um: map<string, User>, im: map<string, Transaction>, f: Filter, day: string)
    ensures OverReturns(um, im, f, At(DateOf, ReturnCount, day))(r) == ReturnsOn(um, im, f, day)(r)
    ensures OverReturns(um, im, f, At(DateOf, IssueCount, day))(r) == 0
    ensures OverReturns(um, im, f, At(DateOf, Quantity, day))(r) == ReturnedOn(um, im, f, day)(r)
  {
    var e := ReturnEvent(r, um, im);
    assert DateOf(e) == DateKey(r.timestamp) && IssueCount(e) == 0 && ReturnCount(e) == 1
        && Quantity(e) == r.quantityReturned;
  }

  lemma IssuesOnDay(txs: seq<Transaction>, um: map<string, User>, f: Filter, day: string)
    ensures Sum(IssueEvents(txs, um, f), At(DateOf, IssueCount, day)) == Sum(txs, IssuesOn(um, f, day))
    ensures Sum(IssueEvents(txs, um, f), At(DateOf, ReturnCount, day)) == 0
    ensures Sum(IssueEvents(txs, um, f), At(DateOf, Quantity, day)) == Sum(txs, IssuedOn(um, f, day))
  {
    var n, m, q := OverIssues(um, f, At(DateOf, IssueCount, day)), OverIssues(um, f, At(DateOf, ReturnCount, day)),
                   OverIssues(um, f, At(DateOf, Quantity, day));
    forall tx ensures n(tx) == IssuesOn(um, f, day)(tx) && m(tx) == 0 && q(tx) == IssuedOn(um, f, day)(tx) {
      IssueOnDay(tx, um, f, day);
    }
    IssueEventsSum(txs, um, f, At(DateOf, IssueCount, day));
    IssueEventsSum(txs, um, f, At(DateOf, ReturnCount, day));
    IssueEventsSum(txs, um, f, At(DateOf, Quantity, day));
    SumCongruent(txs, n, IssuesOn(um, f, day));
    SumZero(txs, m);
    SumCongruent(txs, q, IssuedOn(um, f, day));
  }

  lemma ReturnsOnDay(rets: seq<Return>, um: map<string, User>, im: map<string, Transaction>, f: Filter, day: string)
    ensures Sum(ReturnEvents(rets, um, im, f), At(DateOf, ReturnCount, day)) == Sum(rets, ReturnsOn(um, im, f, day))
    ensures Sum(ReturnEvents(rets, um, im, f), At(DateOf, IssueCount, day)) == 0
    ensures Sum(ReturnEvents(rets, um, im, f), At(DateOf, Quantity, day)) == Sum(rets, ReturnedOn(um, im, f, day))
  {
    var n, m, q :=
        OverReturns(um, im, f, At(DateOf, ReturnCount, day)), OverReturns(um, im, f, At(DateOf, IssueCount, day)),
                   OverReturns(um, im, f, At(DateOf, Quantity, day));
    forall r ensures n(r) == ReturnsOn(um, im, f, day)(r) && m(r) == 0 && q(r) == ReturnedOn(um, im, f, day)(r) {
      ReturnOnDay(r, um, im, f, day);
    }
    ReturnEventsSum(rets, um, im, f, At(DateOf, ReturnCount, day));
    ReturnEventsSum(rets, um, im, f, At(DateOf, IssueCount, day));
    ReturnEventsSum(rets, um, im, f, At(DateOf, Quantity, day));
    SumCongruent(rets, n, ReturnsOn(um, im, f, day));
    SumZero(rets, m);
    SumCongruent(rets, q, ReturnedOn(um, im, f, day));
  }

  /** Some row that counts falls on the day. */
  ghost predicate RowOn(txs: seq<Transaction>, rets: seq<Return>, um: map<string, User>, im: map<string, Transaction>,
                        f: Filter, day: string) {
    || (exists tx :: tx in txs && KeepsIssue(tx, um, f) && DateKey(tx.timestamp) == day)
    || (exists r :: r in rets && KeepsReturn(r, um, im, f) && DateKey(r.timestamp) == day)
  }

  lemma DaysAreRowDays(txs: seq<Transaction>, rets: seq<Return>, users: seq<User>, f: Filter, day: string)
    ensures (exists e :: e in Shown(txs, rets, users, f) && e.dateKey == day)
       <==> RowOn(txs, rets, ByKey(users, UserKey), ByKey(txs, IssueKey), f, day)
  {
    var um, im := ByKey(users, UserKey), ByKey(txs, IssueKey);
    if e :| e in Shown(txs, rets, users, f) && e.dateKey == day {
      IssueEventsAreRows(txs, um, f, e);
      ReturnEventsAreRows(rets, um, im, f, e);
    }
    if tx :| tx in txs && KeepsIssue(tx, um, f) && DateKey(tx.timestamp) == day {
      IssueEventsAreRows(txs, um, f, IssueEvent(tx, um));
      assert IssueEvent(tx, um) in Shown(txs, rets, users, f);
    }
    if r :| r in rets && KeepsReturn(r, um, im, f) && DateKey(r.timestamp) == day {
      ReturnEventsAreRows(rets, um, im, f, ReturnEvent(r, um, im));
      assert ReturnEvent(r, um, im) in Shown(txs, rets, users, f);
    }
  }

  /** The labels are exactly the days of the rows that count, and each entry is the number,
      or the quantity, of those rows on its day. */
  ghost predicate ChartsRowsByDay(d: Summary, txs: seq<Transaction>, rets: seq<Return>, users: seq<User>, f: Filter) {
    var um, im := ByKey(users, UserKey), ByKey(txs, IssueKey);
    && (forall day :: day in d.lineLabels <==> RowOn(txs, rets, um, im, f, day))
    && (forall day :: day in d.barLabels <==> RowOn(txs, rets, um, im, f, day))
    && |d.issuedCounts| == |d.returnedCounts| == |d.lineLabels| && |d.itemQuantities| == |d.barLabels|
    && (forall i | 0 <= i < |d.lineLabels| ::
          && d.issuedCounts[i] == Sum(txs, IssuesOn(um, f, d.lineLabels[i]))
          && d.returnedCounts[i] == Sum(rets, ReturnsOn(um, im, f, d.lineLabels[i])))
    && (forall i | 0 <= i < |d.barLabels| ::
          d.itemQuantities[i]
          == Sum(txs, IssuedOn(um, f, d.barLabels[i])) + Sum(rets, ReturnedOn(um, im, f, d.barLabels[i])))
  }

  /** THE CHARTS BY DAY, over the rows. */
  lemma SeriesByDay(d: Summary, txs: seq<Transaction>, rets: seq<Return>, users: seq<User>, f: Filter)
    requires ShowsSeries(d, Shown(txs, rets, users, f))
    ensures ChartsRowsByDay(d, txs, rets, users, f)
  {
    var um, im := ByKey(users, UserKey), ByKey(txs, IssueKey);
    forall day ensures (day in d.lineLabels <==> RowOn(txs, rets, um, im, f, day))
                    && (day in d.barLabels <==> RowOn(txs, rets, um, im, f, day)) {
      DaysAreRowDays(txs, rets, users, f, day);
    }
    forall i | 0 <= i < |d.lineLabels|
      ensures d.issuedCounts[i] == Sum(txs, IssuesOn(um, f, d.lineLabels[i]))
      ensures d.returnedCounts[i] == Sum(rets, ReturnsOn(um, im, f, d.lineLabels[i]))
    {
      CountsOnDay(txs, rets, users, f, d.lineLabels[i]);
    }
    forall i | 0 <= i < |d.barLabels|
      ensures d.itemQuantities[i]
           == Sum(txs, IssuedOn(um, f, d.barLabels[i])) + Sum(rets, ReturnedOn(um, im, f, d.barLabels[i]))
    {
      CountsOnDay(txs, rets, users, f, d.barLabels[i]);
    }
  }

  lemma CountsOnDay(txs: seq<Transaction>, rets: seq<Return>, users: seq<User>, f: Filter, day: string)
    ensures
      var um, im := ByKey(users, UserKey), ByKey(txs, IssueKey);
      var events := Shown(txs, rets, users, f);
      && Sum(events, At(DateOf, IssueCount, day)) == Sum(txs, IssuesOn(um, f, day))
      && Sum(events, At(DateOf, ReturnCount, day)) == Sum(rets, ReturnsOn(um, im, f, day))
      && Sum(events, At(DateOf, Quantity, day))
           == Sum(txs, IssuedOn(um, f, day)) + Sum(rets, ReturnedOn(um, im, f, day))
  {
    var um, im := ByKey(users, UserKey), ByKey(txs, IssueKey);
    var ie, re := IssueEvents(txs, um, f), ReturnEvents(rets, um, im, f);
    SumConcat(ie, re, At(DateOf, IssueCount, day));
    SumConcat(ie, re, At(DateOf, ReturnCount, day));
    SumConcat(ie, re, At(DateOf, Quantity, day));
    IssuesOnDay(txs, um, f, day);
    ReturnsOnDay(rets, um, im, f, day);
  }

  // ---- the matrix labels ------------------------------------------------------------------------

  /** The rows and columns of the matrix are those of the issues that count, in strictly
      increasing order. */
  lemma MatrixLabelsAreRows(d: Summary, txs: seq<Transaction>, rets: seq<Return>, users: seq<User>,
                            depts: seq<Department>, f: Filter)
    requires ShowsMatrix(d, Shown(txs, rets, users, f), users, depts)
    ensures
      var um, dm := ByKey(users, UserKey), ByKey(depts, DepartmentKey);
      && Increasing(d.deptLabels) && Increasing(Names(d.datasets))
      && (forall x :: x in d.deptLabels <==>
            exists tx :: tx in txs && KeepsIssue(tx, um, f) && DeptLabel(um, dm, tx.issuedToUserId) == x)
      && (forall x :: x in Names(d.datasets) <==> exists tx :: tx in txs && KeepsIssue(tx, um, f) && tx.itemName == x)
  {
    var um, dm := ByKey(users, UserKey), ByKey(depts, DepartmentKey);
    var events := Shown(txs, rets, users, f);
    forall x ensures x in d.deptLabels <==>
                exists tx :: tx in txs && KeepsIssue(tx, um, f) && DeptLabel(um, dm, tx.issuedToUserId) == x {
      IssueValuesAreRows(txs, rets, users, f, DeptOf(um, dm), x);
    }
    forall x ensures x in Names(d.datasets) <==> exists tx :: tx in txs && KeepsIssue(tx, um, f) && tx.itemName == x {
      IssueValuesAreRows(txs, rets, users, f, NameOf, x);
    }
  }

  lemma IssueValuesAreRows(txs: seq<Transaction>, rets: seq<Return>, users: seq<User>, f: Filter, k: Event -> string,
                           x: string)
    ensures
      var um := ByKey(users, UserKey);
      (exists e :: e in Shown(txs, rets, users, f) && e.isIssue && k(e) == x)
      <==> exists tx :: tx in txs && KeepsIssue(tx, um, f) && k(IssueEvent(tx, um)) == x
  {
    var um, im := ByKey(users, UserKey), ByKey(txs, IssueKey);
    if e :| e in Shown(txs, rets, users, f) && e.isIssue && k(e) == x {
      IssueEventsAreRows(txs, um, f, e);
      ReturnEventsAreRows(rets, um, im, f, e);
    }
    if tx :| tx in txs && KeepsIssue(tx, um, f) && k(IssueEvent(tx, um)) == x {
      IssueEventsAreRows(txs, um, f, IssueEvent(tx, um));
      assert IssueEvent(tx, um) in Shown(txs, rets, users, f);
    }
  }

  // ---- recent rows ----------------------------------------------------------------------------------

  /** The list entry of an issue: what was issued to whom and when. */
  ghost predicate ListsIssue(e: Event, tx: Transaction, users: seq<User>) {
    var u := Find(users, UserKey, tx.issuedToUserId);
    && e.isIssue && e.itemName == tx.itemName && e.timestamp == tx.timestamp
    && e.userName == if u.Some? then u.value.name else ""
  }

  /** The list entry of a return: the item name is its issue's. */
  ghost predicate ListsReturn(e: Event, r: Return, txs: seq<Transaction>, users: seq<User>) {
    var u, tx := Find(users, UserKey, r.returnedByUserId), Find(txs, IssueKey, r.transactionId);
    && !e.isIssue && e.timestamp == r.timestamp
    && e.itemName == (if tx.Some? then tx.value.itemName else "")
    && e.userName == if u.Some? then u.value.name else ""
  }

  /** RECENT ACTIVITY, over the rows: at most ten entries, latest first, each a row that
      counts with its own item, person and stamp, and no row left out is later than one
      shown. */
  lemma RecentAreRows(d: Summary, txs: seq<Transaction>, rets: seq<Return>, users: seq<User>, f: Filter)
    requires LatestShown(d.recent, Shown(txs, rets, users, f))
    requires KeysDistinct(users, UserKey) && KeysDistinct(txs, IssueKey)
    ensures
      var um, im := ByKey(users, UserKey), ByKey(txs, IssueKey);
      var n := |IssueEvents(txs, um, f)| + |ReturnEvents(rets, um, im, f)|;
      && |d.recent| == (if n < 10 then n else 10)
      && (forall i, j | 0 <= i < j < |d.recent| :: StrLeq(d.recent[j].timestamp, d.recent[i].timestamp))
      && (forall e | e in d.recent ::
            || (exists tx :: tx in txs && KeepsIssue(tx, um, f) && ListsIssue(e, tx, users))
            || (exists r :: r in rets && KeepsReturn(r, um, im, f) && ListsReturn(e, r, txs, users)))
  {
    var um, im := ByKey(users, UserKey), ByKey(txs, IssueKey);
    var events := Shown(txs, rets, users, f);
    forall e | e in d.recent
      ensures || (exists tx :: tx in txs && KeepsIssue(tx, um, f) && ListsIssue(e, tx, users))
              || (exists r :: r in rets && KeepsReturn(r, um, im, f) && ListsReturn(e, r, txs, users))
    {
      assert e in multiset(d.recent) && e in multiset(events);
      EventIsARow(txs, rets, users, f, e);
    }
    forall i, j | 0 <= i < j < |d.recent| ensures StrLeq(d.recent[j].timestamp, d.recent[i].timestamp) {
      assert InOrder(StampOf(d.recent[i]), StampOf(d.recent[j]), true);
    }
  }

  lemma EventIsARow(txs: seq<Transaction>, rets: seq<Return>, users: seq<User>, f: Filter, e: Event)
    requires e in Shown(txs, rets, users, f) && KeysDistinct(users, UserKey) && KeysDistinct(txs, IssueKey)
    ensures
      var um, im := ByKey(users, UserKey), ByKey(txs, IssueKey);
      || (exists tx :: tx in txs && KeepsIssue(tx, um, f) && ListsIssue(e, tx, users))
      || (exists r :: r in rets && KeepsReturn(r, um, im, f) && ListsReturn(e, r, txs, users))
  {
    var um, im := ByKey(users, UserKey), ByKey(txs, IssueKey);
    IssueEventsAreRows(txs, um, f, e);
    ReturnEventsAreRows(rets, um, im, f, e);
    if e in IssueEvents(txs, um, f) {
      var tx :| tx in txs && KeepsIssue(tx, um, f) && e == IssueEvent(tx, um);
      ByKeyAgreesWithFind(users, users, UserKey, tx.issuedToUserId);
      assert ListsIssue(e, tx, users);
    } else {
      var r :| r in rets && KeepsReturn(r, um, im, f) && e == ReturnEvent(r, um, im);
      ByKeyAgreesWithFind(users, users, UserKey, r.returnedByUserId);
      ByKeyAgreesWithFind(txs, txs, IssueKey, r.transactionId);
      assert ListsReturn(e, r, txs, users);
    }
  }

  // ---- stock and alerts ----------------------------------------------------------------------------------

  /** An item is in scope: the selected one; without a selection all, or, under a date or
      person filter, those of a row that counts. */
  ghost predicate ItemCounts(it: Item, txs: seq<Transaction>, rets: seq<Return>, um: map<string, User>,
                             im: map<string, Transaction>, f: Filter) {
    if f.item != "" then it.id == f.item
    else if f.from == "" && f.upto == "" && f.employee == "" && f.department == "" then true
    else it.id != "" &&
         ((exists tx :: tx in txs && KeepsIssue(tx, um, f) && tx.itemId == it.id)
          || (exists r :: r in rets && KeepsReturn(r, um, im, f) && ItemOfReturn(r, im) == it.id))
  }

  lemma ScopeIsRows(it: Item, txs: seq<Transaction>, rets: seq<Return>, users: seq<User>, f: Filter)
    ensures InScope(it, f, ItemIds(Shown(txs, rets, users, f)))
       <==> ItemCounts(it, txs, rets, ByKey(users, UserKey), ByKey(txs, IssueKey), f)
  {
    var um, im := ByKey(users, UserKey), ByKey(txs, IssueKey);
    var events := Shown(txs, rets, users, f);
    if it.id in ItemIds(events) {
      var e :| e in events && e.itemId == it.id;
      IssueEventsAreRows(txs, um, f, e);
      ReturnEventsAreRows(rets, um, im, f, e);
    }
    if tx :| tx in txs && KeepsIssue(tx, um, f) && tx.itemId == it.id {
      IssueEventsAreRows(txs, um, f, IssueEvent(tx, um));
      assert IssueEvent(tx, um) in events;
    }
    if r :| r in rets && KeepsReturn(r, um, im, f) && ItemOfReturn(r, im) == it.id {
      ReturnEventsAreRows(rets, um, im, f, ReturnEvent(r, um, im));
      assert ReturnEvent(r, um, im) in events;
    }
  }

  ghost function StockCounting(txs: seq<Transaction>, rets: seq<Return>, um: map<string, User>,
                               im: map<string, Transaction>, f: Filter): Item -> int {
    (it: Item) => if ItemCounts(it, txs, rets, um, im, f) then it.quantity else 0
  }

  lemma {:induction false} ScopedStock(items: seq<Item>, txs: seq<Transaction>, rets: seq<Return>, users: seq<User>,
                                       f: Filter)
    ensures Sum(Scoped(items, f, ItemIds(Shown(txs, rets, users, f))), ItemQuantity)
         == Sum(items, StockCounting(txs, rets, ByKey(users, UserKey), ByKey(txs, IssueKey), f))
  {
    if items != [] {
      var init, it := items[..|items| - 1], items[|items| - 1];
      ScopedStock(init, txs, rets, users, f);
      ScopeIsRows(it, txs, rets, users, f);
      SumAppend(Scoped(init, f, ItemIds(Shown(txs, rets, users, f))), it, ItemQuantity);
    }
  }

  /** STOCK SHOWN, over the rows: the quantities of the items in scope. */
  lemma StockIsOfItemsInScope(d: Summary, items: seq<Item>, txs: seq<Transaction>, rets: seq<Return>,
                              users: seq<User>, f: Filter)
    requires ShowsStock(d, items, Shown(txs, rets, users, f), f)
    ensures d.totalStock == Sum(items, StockCounting(txs, rets, ByKey(users, UserKey), ByKey(txs, IssueKey), f))
  {
    ScopedStock(items, txs, rets, users, f);
  }

  lemma {:induction false} ScopedMembers(items: seq<Item>, f: Filter, ids: set<string>, it: Item)
    ensures it in Scoped(items, f, ids) <==> it in items && InScope(it, f, ids)
  {
    if items != [] {
      ScopedMembers(items[..|items| - 1], f, ids, it);
      assert it in items <==> it in items[..|items| - 1] || it == items[|items| - 1];
    }
  }

  /** A product is known by its trimmed, lower-cased name, or by its ID if it has none. */
  predicate SameProduct(lib: Library, a: Item, b: Item) {
    var na, nb := lib.text.lower(lib.text.trim(a.name)), lib.text.lower(lib.text.trim(b.name));
    (if na == "" then a.id else na) == (if nb == "" then b.id else nb)
  }

  /** Expires today or within the next thirty days, both ends included. */
  predicate ExpiresSoon(lib: Library, today: int, it: Item) {
    it.expiryDate != "" &&
    match lib.parseDay(lib.text.trim(it.expiryDate))
    case Some(day) => 0 <= day - today <= 30
    case None => false
  }

  /** ALERTS, over the rows: the low-stock list has items in scope with fewer than ten pieces, the
      expiry list items in scope that expire soon; each product once, and none is missing. */
  lemma AlertsAreExact(d: Summary, items: seq<Item>, txs: seq<Transaction>, rets: seq<Return>, users: seq<User>,
                       f: Filter, lib: Library, today: int)
    requires ShowsAlerts(d, items, Shown(txs, rets, users, f), f, lib, today)
    ensures
      var um, im := ByKey(users, UserKey), ByKey(txs, IssueKey);
      && (forall it | it in d.lowStock :: it in items && ItemCounts(it, txs, rets, um, im, f) && it.quantity < 10)
      && (forall it | it in items && ItemCounts(it, txs, rets, um, im, f) && it.quantity < 10 ::
            Listed(lib, d.lowStock, it))
      && (forall it | it in d.expiring ::
          it in items && ItemCounts(it, txs, rets, um, im, f) && ExpiresSoon(lib, today, it))
      && (forall it | it in items && ItemCounts(it, txs, rets, um, im, f) && ExpiresSoon(lib, today, it) ::
            Listed(lib, d.expiring, it))
      && EachOnce(lib, d.lowStock) && EachOnce(lib, d.expiring)
  {
    var scoped := Scoped(items, f, ItemIds(Shown(txs, rets, users, f)));
    ScopedAreRows(items, txs, rets, users, f);
    FirstsListProducts(lib, scoped, IsLow);
    FirstsListProducts(lib, scoped, Expires(lib, today));
    forall it ensures IsLow(it) <==> it.quantity < 10 {
    }
    forall it ensures Expires(lib, today)(it) <==> ExpiresSoon(lib, today, it) {
    }
  }

  ghost predicate Listed(lib: Library, shown: seq<Item>, it: Item) { exists x :: x in shown && SameProduct(lib, x, it) }

  ghost predicate EachOnce(lib: Library, shown: seq<Item>) {
    forall i, j | 0 <= i < j < |shown| :: !SameProduct(lib, shown[i], shown[j])
  }

  /** One alert list over the items in scope. */
  ghost predicate ListsProducts(lib: Library, scoped: seq<Item>, qualifies: Item -> bool, out: seq<Item>) {
    && (forall it | it in out :: it in scoped && qualifies(it))
    && (forall it | it in scoped && qualifies(it) :: Listed(lib, out, it))
    && EachOnce(lib, out)
  }

  lemma SameKeySameProduct(lib: Library, a: Item, b: Item)
    ensures AlertKey(lib)(a) == AlertKey(lib)(b) <==> SameProduct(lib, a, b)
  {
  }

  lemma FirstsListProducts(lib: Library, scoped: seq<Item>, qualifies: Item -> bool)
    ensures ListsProducts(lib, scoped, qualifies, FirstPerKey(scoped, qualifies, AlertKey(lib)))
  {
    var out := FirstPerKey(scoped, qualifies, AlertKey(lib));
    AlertsListFirsts(scoped, qualifies, AlertKey(lib));
    forall it | it in out ensures it in scoped && qualifies(it) {
      assert IsFirstOfKey(scoped, qualifies, AlertKey(lib), it);
    }
    forall it | it in scoped && qualifies(it) ensures Listed(lib, out, it) {
      assert KeyListed(out, AlertKey(lib), AlertKey(lib)(it));
      var x :| x in out && AlertKey(lib)(x) == AlertKey(lib)(it);
      SameKeySameProduct(lib, x, it);
    }
    forall i, j | 0 <= i < j < |out| ensures !SameProduct(lib, out[i], out[j]) {
      SameKeySameProduct(lib, out[i], out[j]);
    }
  }

  lemma ScopedAreRows(items: seq<Item>, txs: seq<Transaction>, rets: seq<Return>, users: seq<User>, f: Filter)
    ensures forall it :: it in Scoped(items, f, ItemIds(Shown(txs, rets, users, f))) <==>
              it in items && ItemCounts(it, txs, rets, ByKey(users, UserKey), ByKey(txs, IssueKey), f)
  {
    var ids := ItemIds(Shown(txs, rets, users, f));
    forall it ensures it in Scoped(items, f, ids) <==>
                it in items && ItemCounts(it, txs, rets, ByKey(users, UserKey), ByKey(txs, IssueKey), f) {
      ScopedMembers(items, f, ids, it);
      ScopeIsRows(it, txs, rets, users, f);
    }
  }
}
