/** What the dashboard's figures mean: exact charts for every filter, and totals that
    agree with the stock ledger. */
module DashboardFacts {
  import opened Models
  import opened Sums
  import opened Ordering
  import opened Dates
  import opened Ledger
  import opened Conservation
  import opened Integrity
  import opened PartialReturns
  import opened ReturnTotals
  import opened StockService
  import opened DashboardModel
  import opened Dashboard
  import opened DashboardRows

  const Self: int -> int := (n: int) => n

  lemma {:induction false} SumReadOut(labels: seq<string>, counts: seq<int>, g: string -> int)
    requires |counts| == |labels| && forall i | 0 <= i < |labels| :: counts[i] == g(labels[i])
    ensures Sum(counts, Self) == Sum(labels, g)
  {
    if labels != [] {
      SumReadOut(labels[..|labels| - 1], counts[..|counts| - 1], g);
    }
  }

  lemma {:induction false} CountsAreLengths(txs: seq<Transaction>, rets: seq<Return>, um: map<string, User>,
                                            im: map<string, Transaction>, f: Filter)
    ensures Sum(IssueEvents(txs, um, f), IssueCount) == |IssueEvents(txs, um, f)|
        && Sum(IssueEvents(txs, um, f), ReturnCount) == 0
    ensures Sum(ReturnEvents(rets, um, im, f), ReturnCount) == |ReturnEvents(rets, um, im, f)|
        && Sum(ReturnEvents(rets, um, im, f), IssueCount) == 0
    decreases |txs|, |rets|
  {
    if txs != [] {
      CountsAreLengths(txs[..|txs| - 1], rets, um, im, f);
      var e := IssueEvent(txs[|txs| - 1], um);
      SumAppend(IssueEvents(txs[..|txs| - 1], um, f), e, IssueCount);
      SumAppend(IssueEvents(txs[..|txs| - 1], um, f), e, ReturnCount);
    } else if rets != [] {
      CountsAreLengths(txs, rets[..|rets| - 1], um, im, f);
      var e := ReturnEvent(rets[|rets| - 1], um, im);
      SumAppend(ReturnEvents(rets[..|rets| - 1], um, im, f), e, IssueCount);
      SumAppend(ReturnEvents(rets[..|rets| - 1], um, im, f), e, ReturnCount);
    }
  }

  // ---- time series ---------------------------------------------------------------------

  lemma SeriesTotal(labels: seq<string>, counts: seq<int>, events: seq<Event>, w: Event -> int)
    requires DatesOf(labels, events) && SeriesShown(labels, counts, events, w)
    ensures Sum(counts, Self) == Sum(events, w)
  {
    IncreasingDistinct(labels);
    SumReadOut(labels, counts, Bucket(events, DateOf, w));
    SumByKey(events, labels, DateOf, w);
  }

  /** TIME SERIES: both charts have the same strictly increasing dates, those of the
      rows that count; every entry counts the rows of its day; the counts sum to the numbers
      of filtered issues and returns, and the quantities to what was issued plus what was
      returned. */
  lemma SeriesAreExact(d: Summary, txs: seq<Transaction>, rets: seq<Return>, users: seq<User>, f: Filter)
    requires ShowsTotals(d, Shown(txs, rets, users, f)) && ShowsSeries(d, Shown(txs, rets, users, f))
    ensures ChartsRowsByDay(d, txs, rets, users, f)
    ensures
      var um, im := ByKey(users, UserKey), ByKey(txs, IssueKey);
      && d.lineLabels == d.barLabels && Increasing(d.lineLabels)
      && |d.issuedCounts| == |d.returnedCounts| == |d.itemQuantities| == |d.lineLabels|
      && Sum(d.issuedCounts, Self) == |IssueEvents(txs, um, f)|
      && Sum(d.returnedCounts, Self) == |ReturnEvents(rets, um, im, f)|
      && Sum(d.itemQuantities, Self) == d.totalIssued + d.totalReturned
  {
    var um, im := ByKey(users, UserKey), ByKey(txs, IssueKey);
    var ie, re := IssueEvents(txs, um, f), ReturnEvents(rets, um, im, f);
    SeriesByDay(d, txs, rets, users, f);
    IncreasingUnique(d.lineLabels, d.barLabels);
    SeriesTotal(d.lineLabels, d.issuedCounts, ie + re, IssueCount);
    SeriesTotal(d.lineLabels, d.returnedCounts, ie + re, ReturnCount);
    SeriesTotal(d.barLabels, d.itemQuantities, ie + re, Quantity);
    CountsAreLengths(txs, rets, um, im, f);
    SumConcat(ie, re, IssueCount);
    SumConcat(ie, re, ReturnCount);
    SumPlus(ie + re, IssuedQuantity, ReturnedQuantity, Quantity);
  }

  // ---- department matrix ---------------------------------------------------------------

  ghost function RowTotal(): Dataset -> int { (s: Dataset) => Sum(s.data, Self) }

  ghost function CellRow(events: seq<Event>, dept: Event -> string, name: string): string -> int {
    (d: string) => Cell(events, dept, d, name)
  }

  /** One row of the matrix sums to the issued quantity of its item name. */
  lemma MatrixRowTotal(deptLabels: seq<string>, data: seq<int>, name: string, events: seq<Event>, dept: Event -> string)
    requires IssueValues(deptLabels, events, dept) && RowShown(data, deptLabels, name, events, dept)
    ensures Sum(data, Self) == Sum(events, At(NameOf, IssuedQuantity, name))
  {
    IncreasingDistinct(deptLabels);
    var w := At(NameOf, IssuedQuantity, name);
    SumReadOut(deptLabels, data, CellRow(events, dept, name));
    forall d | d in deptLabels ensures CellRow(events, dept, name)(d) == Bucket(events, dept, w)(d) {
      SumCongruent(events, At(NameOf, At(dept, IssuedQuantity, d), name), At(dept, w, d));
    }
    SumCongruent(deptLabels, CellRow(events, dept, name), Bucket(events, dept, w));
    SumByKey(events, deptLabels, dept, w);
  }

  lemma {:induction false} SumOverNames(datasets: seq<Dataset>, f: Dataset -> int, g: string -> int)
    requires forall i | 0 <= i < |datasets| :: f(datasets[i]) == g(datasets[i].name)
    ensures Sum(datasets, f) == Sum(Names(datasets), g)
  {
    if datasets != [] {
      var last := |datasets| - 1;
      SumOverNames(datasets[..last], f, g);
      assert Names(datasets)[..last] == Names(datasets[..last]);
    }
  }

  lemma MatrixTotal(deptLabels: seq<string>, datasets: seq<Dataset>, events: seq<Event>, dept: Event -> string)
    requires MatrixShown(deptLabels, datasets, events, dept)
    ensures Sum(datasets, RowTotal()) == Sum(events, IssuedQuantity)
  {
    forall i | 0 <= i < |datasets|
      ensures RowTotal()(datasets[i]) == Bucket(events, NameOf, IssuedQuantity)(datasets[i].name)
    {
      MatrixRowTotal(deptLabels, datasets[i].data, datasets[i].name, events, dept);
    }
    SumOverNames(datasets, RowTotal(), Bucket(events, NameOf, IssuedQuantity));
    IncreasingDistinct(Names(datasets));
    SumByKey(events, Names(datasets), NameOf, IssuedQuantity);
  }

  /** The rows behind one cell: filtered issues to that department of that item name. */
  ghost function CellW(um: map<string, User>, dm: map<string, Department>, f: Filter, d: string,
                       name: string): Transaction -> int {
    (tx: Transaction) =>
      if KeepsIssue(tx, um, f) && DeptLabel(um, dm, tx.issuedToUserId) == d && tx.itemName == name
      then tx.quantity else 0
  }

  lemma {:induction false} CellCountsRows(txs: seq<Transaction>, um: map<string, User>, dm: map<string, Department>,
                                          f: Filter, d: string, name: string)
    ensures Cell(IssueEvents(txs, um, f), DeptOf(um, dm), d, name) == Sum(txs, CellW(um, dm, f, d, name))
  {
    if txs != [] {
      var init, tx := txs[..|txs| - 1], txs[|txs| - 1];
      CellCountsRows(init, um, dm, f, d, name);
      SumAppend(IssueEvents(init, um, f), IssueEvent(tx, um), At(NameOf, At(DeptOf(um, dm), IssuedQuantity, d), name));
    }
  }

  /** DEPARTMENT MATRIX: for every filter combination each cell is the sum of the
      filtered issue quantities for that department and item name, every row has one
      entry per department, and all cells together are the total issued. */
  lemma MatrixIsExact(d: Summary, txs: seq<Transaction>, rets: seq<Return>, users: seq<User>, depts: seq<Department>,
                      f: Filter)
    requires ShowsTotals(d, Shown(txs, rets, users, f)) && ShowsMatrix(d, Shown(txs, rets, users, f), users, depts)
    ensures
      var um, dm := ByKey(users, UserKey), ByKey(depts, DepartmentKey);
      && (forall i | 0 <= i < |d.datasets| :: |d.datasets[i].data| == |d.deptLabels|)
      && (forall i, j | 0 <= i < |d.datasets| && 0 <= j < |d.deptLabels| ::
            d.datasets[i].data[j] == Sum(txs, CellW(um, dm, f, d.deptLabels[j], d.datasets[i].name)))
      && Sum(d.datasets, RowTotal()) == d.totalIssued
  {
    var um, im, dm := ByKey(users, UserKey), ByKey(txs, IssueKey), ByKey(depts, DepartmentKey);
    var ie, re := IssueEvents(txs, um, f), ReturnEvents(rets, um, im, f);
    MatrixTotal(d.deptLabels, d.datasets, ie + re, DeptOf(um, dm));
    forall i, j | 0 <= i < |d.datasets| && 0 <= j < |d.deptLabels|
      ensures d.datasets[i].data[j] == Sum(txs, CellW(um, dm, f, d.deptLabels[j], d.datasets[i].name))
    {
      var dept, name := d.deptLabels[j], d.datasets[i].name;
      assert RowShown(d.datasets[i].data, d.deptLabels, name, ie + re, DeptOf(um, dm));
      var w := At(NameOf, At(DeptOf(um, dm), IssuedQuantity, dept), name);
      SumConcat(ie, re, w);
      ReturnEventsTotal(rets, um, im, f);
      SumZero(re, w);
      CellCountsRows(txs, um, dm, f, dept, name);
    }
  }

  // ---- totals against the rows ------------------------------------------------------------

  lemma TotalsAreFilteredSums(d: Summary, txs: seq<Transaction>, rets: seq<Return>, users: seq<User>, f: Filter)
    requires ShowsTotals(d, Shown(txs, rets, users, f))
    ensures
      var um, im := ByKey(users, UserKey), ByKey(txs, IssueKey);
      d.totalIssued == Sum(txs, KeptIssueW(um, f)) && d.totalReturned == Sum(rets, KeptReturnW(um, im, f))
  {
    var um, im := ByKey(users, UserKey), ByKey(txs, IssueKey);
    var ie, re := IssueEvents(txs, um, f), ReturnEvents(rets, um, im, f);
    SumConcat(ie, re, IssuedQuantity);
    SumConcat(ie, re, ReturnedQuantity);
    IssueEventsTotal(txs, um, f);
    ReturnEventsTotal(rets, um, im, f);
  }

  /** `last` and `first` are neighbouring days inside the window of `f`. */
  ghost predicate Splits(f: Filter, last: string, first: string) {
    && last != "" && first != "" && StrLess(last, first)
    && (f.from == "" || StrLeq(f.from, last)) && (f.upto == "" || StrLeq(first, f.upto))
  }

  /** DATE WINDOWS COMPOSE: splitting a window between two neighbouring days splits
      both totals exactly, whatever the other filters. */
  lemma WindowTotalsAdd(txs: seq<Transaction>, rets: seq<Return>, um: map<string, User>, im: map<string, Transaction>,
                        f: Filter, last: string, first: string)
    requires Splits(f, last, first)
    requires (forall tx | tx in txs :: Outside(tx.timestamp, last, first))
        && (forall r | r in rets :: Outside(r.timestamp, last, first))
    ensures Sum(txs, KeptIssueW(um, f))
        == Sum(txs, KeptIssueW(um, f.(upto := last))) + Sum(txs, KeptIssueW(um, f.(from := first)))
    ensures Sum(rets, KeptReturnW(um, im, f))
        == Sum(rets, KeptReturnW(um, im, f.(upto := last))) + Sum(rets, KeptReturnW(um, im, f.(from := first)))
  {
    forall tx | tx in txs
      ensures KeptIssueW(um, f)(tx) == KeptIssueW(um, f.(upto := last))(tx) + KeptIssueW(um, f.(from := first))(tx)
    {
      WindowSplits(DateKey(tx.timestamp), f.from, f.upto, last, first);
    }
    SumPlus(txs, KeptIssueW(um, f.(upto := last)), KeptIssueW(um, f.(from := first)), KeptIssueW(um, f));
    forall r | r in rets
      ensures KeptReturnW(um, im, f)(r)
          == KeptReturnW(um, im, f.(upto := last))(r) + KeptReturnW(um, im, f.(from := first))(r)
    {
      WindowSplits(DateKey(r.timestamp), f.from, f.upto, last, first);
    }
    SumPlus(rets, KeptReturnW(um, im, f.(upto := last)), KeptReturnW(um, im, f.(from := first)),
            KeptReturnW(um, im, f));
  }

  ghost function One(kept: bool, e: Event): multiset<Event> { if kept then multiset{e} else multiset{} }

  lemma LastIssueEvent(txs: seq<Transaction>, um: map<string, User>, f: Filter)
    requires txs != []
    ensures
      var tx := txs[|txs| - 1];
      multiset(IssueEvents(txs, um, f))
          == multiset(IssueEvents(txs[..|txs| - 1], um, f)) + One(KeepsIssue(tx, um, f), IssueEvent(tx, um))
  {
  }

  lemma LastReturnEvent(rets: seq<Return>, um: map<string, User>, im: map<string, Transaction>, f: Filter)
    requires rets != []
    ensures
      var r := rets[|rets| - 1];
      multiset(ReturnEvents(rets, um, im, f))
          == multiset(ReturnEvents(rets[..|rets| - 1], um, im, f)) +
              One(KeepsReturn(r, um, im, f), ReturnEvent(r, um, im))
  {
  }

  lemma IssueKeptOnce(tx: Transaction, um: map<string, User>, f: Filter, last: string, first: string)
    requires Splits(f, last, first) && Outside(tx.timestamp, last, first)
    ensures One(KeepsIssue(tx, um, f), IssueEvent(tx, um))
         == One(KeepsIssue(tx, um, f.(upto := last)), IssueEvent(tx, um)) +
             One(KeepsIssue(tx, um, f.(from := first)), IssueEvent(tx, um))
  {
    WindowSplits(DateKey(tx.timestamp), f.from, f.upto, last, first);
  }

  lemma ReturnKeptOnce(r: Return, um: map<string, User>, im: map<string, Transaction>, f: Filter, last: string,
                       first: string)
    requires Splits(f, last, first) && Outside(r.timestamp, last, first)
    ensures One(KeepsReturn(r, um, im, f), ReturnEvent(r, um, im))
         == One(KeepsReturn(r, um, im, f.(upto := last)), ReturnEvent(r, um, im)) +
             One(KeepsReturn(r, um, im, f.(from := first)), ReturnEvent(r, um, im))
  {
    WindowSplits(DateKey(r.timestamp), f.from, f.upto, last, first);
  }

  /** The events of the whole window are those of its two halves, none lost or repeated. */
  lemma {:induction false} WindowIssuesSplit(txs: seq<Transaction>, um: map<string, User>, f: Filter, last: string,
                                             first: string)
    requires Splits(f, last, first) && forall tx | tx in txs :: Outside(tx.timestamp, last, first)
    ensures multiset(IssueEvents(txs, um, f))
         == multiset(IssueEvents(txs, um, f.(upto := last))) + multiset(IssueEvents(txs, um, f.(from := first)))
  {
    if txs != [] {
      WindowIssuesSplit(txs[..|txs| - 1], um, f, last, first);
      LastIssueEvent(txs, um, f);
      LastIssueEvent(txs, um, f.(upto := last));
      LastIssueEvent(txs, um, f.(from := first));
      IssueKeptOnce(txs[|txs| - 1], um, f, last, first);
    }
  }

  lemma {:induction false} WindowReturnsSplit(rets: seq<Return>, um: map<string, User>, im: map<string, Transaction>,
                                              f: Filter, last: string, first: string)
    requires Splits(f, last, first) && forall r | r in rets :: Outside(r.timestamp, last, first)
    ensures multiset(ReturnEvents(rets, um, im, f))
         == multiset(ReturnEvents(rets, um, im, f.(upto := last))) +
             multiset(ReturnEvents(rets, um, im, f.(from := first)))
  {
    if rets != [] {
      WindowReturnsSplit(rets[..|rets| - 1], um, im, f, last, first);
      LastReturnEvent(rets, um, im, f);
      LastReturnEvent(rets, um, im, f.(upto := last));
      LastReturnEvent(rets, um, im, f.(from := first));
      ReturnKeptOnce(rets[|rets| - 1], um, im, f, last, first);
    }
  }

  /** SPLITTING AT MIDNIGHT: cutting a window between a calendar day and the next splits the
      totals and the events of dated rows exactly, whatever the other filters. */
  lemma MidnightSplits(txs: seq<Transaction>, rets: seq<Return>, um: map<string, User>, im: map<string, Transaction>,
                       f: Filter, a: Clock, b: Clock)
    requires Real(a) && Real(b) && NextDay(a, b)
    requires (f.from == "" || StrLeq(f.from, Day(a))) && (f.upto == "" || StrLeq(Day(b), f.upto))
    requires (forall tx | tx in txs :: Dated(tx.timestamp)) && (forall r | r in rets :: Dated(r.timestamp))
    ensures
      var early, late := f.(upto := Day(a)), f.(from := Day(b));
      && Sum(txs, KeptIssueW(um, f)) == Sum(txs, KeptIssueW(um, early)) + Sum(txs, KeptIssueW(um, late))
      && Sum(rets, KeptReturnW(um, im, f))
           == Sum(rets, KeptReturnW(um, im, early)) + Sum(rets, KeptReturnW(um, im, late))
      && multiset(IssueEvents(txs, um, f))
         == multiset(IssueEvents(txs, um, early)) + multiset(IssueEvents(txs, um, late))
      && multiset(ReturnEvents(rets, um, im, f))
         == multiset(ReturnEvents(rets, um, im, early)) + multiset(ReturnEvents(rets, um, im, late))
  {
    forall tx | tx in txs ensures Outside(tx.timestamp, Day(a), Day(b)) {
      DatedOutside(a, b, tx.timestamp);
    }
    forall r | r in rets ensures Outside(r.timestamp, Day(a), Day(b)) {
      DatedOutside(a, b, r.timestamp);
    }
    DaysSplit(f, a, b);
    WindowTotalsAdd(txs, rets, um, im, f, Day(a), Day(b));
    WindowIssuesSplit(txs, um, f, Day(a), Day(b));
    WindowReturnsSplit(rets, um, im, f, Day(a), Day(b));
  }

  lemma DaysSplit(f: Filter, a: Clock, b: Clock)
    requires Real(a) && Real(b) && NextDay(a, b)
    requires (f.from == "" || StrLeq(f.from, Day(a))) && (f.upto == "" || StrLeq(Day(b), f.upto))
    ensures Splits(f, Day(a), Day(b))
  {
    NoRowBetweenNeighbours(a, b, a);
    assert |Day(a)| == 10 && |Day(b)| == 10;
  }

  // ---- totals against the ledger ------------------------------------------------------------

  /** No filter, or the item filter alone. */
  function ItemFilter(sc: Scope): Filter {
    Filter("", "", "", "", if sc.AllItems? then "" else sc.id)
  }

  /** Rows without a timestamp fall outside every window; the service always writes one. */
  ghost predicate Stamped(b: Books) {
    (forall i | 0 <= i < |b.issues| :: b.issues[i].timestamp != "")
        && (forall i | 0 <= i < |b.rets| :: b.rets[i].timestamp != "")
  }

  lemma {:induction false} StampsStay(s: State, run: seq<Action>)
    requires Stamped(s.books) && forall a | a in run :: a.Advance? ==> a.env.now != ""
    ensures Stamped(Run(s, run).books)
    decreases run
  {
    if run != [] {
      assert run[0] in run && forall a | a in run[1..] :: a in run;
      NextStamped(s, run[0]);
      StampsStay(Next(s, run[0]), run[1..]);
    }
  }

  lemma NextStamped(s: State, a: Action)
    requires Stamped(s.books) && (a.Advance? ==> a.env.now != "")
    ensures Stamped(Next(s, a).books)
  {
    if a.Advance? && a.call < |s.calls| {
      var c := s.calls[a.call];
      if !c.Debited? && !c.Credited? {
        assert Step(s.books, c, a.env).0.issues == s.books.issues && Step(s.books, c, a.env).0.rets == s.books.rets;
      }
    }
  }

  lemma StockShown(items: seq<Item>, sc: Scope, ids: set<string>)
    requires sc.OnlyItem? ==> sc.id != ""
    ensures Sum(Scoped(items, ItemFilter(sc), ids), ItemQuantity) == Sum(items, StockW(sc))
  {
    if items != [] {
      var init, it := items[..|items| - 1], items[|items| - 1];
      StockShown(init, sc, ids);
      SumAppend(Scoped(init, ItemFilter(sc), ids), it, ItemQuantity);
    }
  }

  lemma IssuedShown(b: Books, um: map<string, User>, sc: Scope)
    requires Stamped(b) && (sc.OnlyItem? ==> sc.id != "")
    ensures Sum(b.issues, KeptIssueW(um, ItemFilter(sc))) == Sum(b.issues, IssuedW(sc))
  {
    forall tx | tx in b.issues ensures KeptIssueW(um, ItemFilter(sc))(tx) == IssuedW(sc)(tx) {
      var i :| 0 <= i < |b.issues| && b.issues[i] == tx;
      assert b.issues[i].timestamp != "";
    }
    SumCongruent(b.issues, KeptIssueW(um, ItemFilter(sc)), IssuedW(sc));
  }

  /** A return names a recorded issue and carries its item. */
  ghost predicate ReturnMatches(b: Books, r: Return) {
    var tx := Find(b.issues, IssueKey, r.transactionId);
    tx.Some? && tx.value.itemId == r.itemId
  }

  ghost predicate ReturnsMatch(b: Books) {
    KeysDistinct(b.issues, IssueKey) && forall i | 0 <= i < |b.rets| :: ReturnMatches(b, b.rets[i])
  }

  lemma OkBooksMatch(b: Books)
    requires BooksOk(b)
    ensures ReturnsMatch(b)
  {
    forall i | 0 <= i < |b.rets| ensures ReturnMatches(b, b.rets[i]) {
      assert ReturnRefers(b, b.rets[i]);
    }
  }

  /** A return is shown under its issue's item, also if the issues were read too early to
      have the issue. */
  lemma ReturnItemShown(b: Books, issues: seq<Transaction>, txs: seq<Transaction>, r: Return)
    requires KeysDistinct(b.issues, IssueKey) && ReturnMatches(b, r)
    requires issues <= b.issues && multiset(txs) == multiset(issues)
    ensures ItemOfReturn(r, ByKey(txs, IssueKey)) == r.itemId
  {
    assert forall i | 0 <= i < |issues| :: issues[i] == b.issues[i];
    ByKeyAgreesWithFind(txs, issues, IssueKey, r.transactionId);
    if Find(issues, IssueKey, r.transactionId).Some? {
      FindStable(issues, b.issues, IssueKey, r.transactionId);
    }
  }

  lemma ReturnPartShown(b: Books, issues: seq<Transaction>, txs: seq<Transaction>, um: map<string, User>, sc: Scope,
                        r: Return)
    requires KeysDistinct(b.issues, IssueKey) && ReturnMatches(b, r) && r.timestamp != ""
    requires issues <= b.issues && multiset(txs) == multiset(issues) && (sc.OnlyItem? ==> sc.id != "")
    ensures KeptReturnW(um, ByKey(txs, IssueKey), ItemFilter(sc))(r) == ReturnedW(sc)(r)
  {
    ReturnItemShown(b, issues, txs, r);
  }

  lemma ReturnedShown(b: Books, issues: seq<Transaction>, txs: seq<Transaction>, um: map<string, User>, sc: Scope)
    requires ReturnsMatch(b) && Stamped(b)
    requires issues <= b.issues && multiset(txs) == multiset(issues) && (sc.OnlyItem? ==> sc.id != "")
    ensures Sum(b.rets, KeptReturnW(um, ByKey(txs, IssueKey), ItemFilter(sc))) == Sum(b.rets, ReturnedW(sc))
  {
    var kept := KeptReturnW(um, ByKey(txs, IssueKey), ItemFilter(sc));
    forall i | 0 <= i < |b.rets| ensures kept(b.rets[i]) == ReturnedW(sc)(b.rets[i]) {
      assert ReturnMatches(b, b.rets[i]);
      ReturnPartShown(b, issues, txs, um, sc, b.rets[i]);
    }
    SumCongruent(b.rets, kept, ReturnedW(sc));
  }

  /** The three totals of a page made of these items, issues and returns; `txs` are the
      issues in any order. */
  ghost predicate ShowsRows(d: Summary, items: seq<Item>, issues: seq<Transaction>, rets: seq<Return>,
                            txs: seq<Transaction>, users: seq<User>, f: Filter) {
    var events := Shown(txs, rets, users, f);
    multiset(txs) == multiset(issues) && ShowsTotals(d, events) && ShowsStock(d, items, events, f)
  }

  /** The totals are part of what the page shows. */
  lemma PageShowsRows(d: Summary, items: seq<Item>, issues: seq<Transaction>, txs: seq<Transaction>, rets: seq<Return>,
                      users: seq<User>, depts: seq<Department>, f: Filter, lib: Library, today: int)
    requires Shows(d, items, txs, rets, users, depts, f, lib, today) && multiset(txs) == multiset(issues)
    ensures ShowsRows(d, items, issues, rets, txs, users, f)
  {
  }

  /** The totals are the ledger's sums over what was read, each in its own state: the issues
      may be older than the returns `b` holds, and the items older still. */
  lemma TotalsShowLedger(d: Summary, items: seq<Item>, issues: seq<Transaction>, b: Books,
                         txs: seq<Transaction>, users: seq<User>, sc: Scope)
    requires ShowsRows(d, items, issues, b.rets, txs, users, ItemFilter(sc))
    requires ReturnsMatch(b) && Stamped(b) && issues <= b.issues && (sc.OnlyItem? ==> sc.id != "")
    ensures d.totalStock == Sum(items, StockW(sc))
    ensures d.totalIssued == Sum(issues, IssuedW(sc)) && d.totalReturned == Sum(b.rets, ReturnedW(sc))
  {
    var f := ItemFilter(sc);
    var um := ByKey(users, UserKey);
    TotalsAreFilteredSums(d, txs, b.rets, users, f);
    StockShown(items, sc, ItemIds(Shown(txs, b.rets, users, f)));
    SumPermuted(txs, issues, KeptIssueW(um, f));
    IssuedShown(b.(issues := issues, rets := []), um, sc);
    ReturnedShown(b, issues, txs, um, sc);
  }

  lemma StatesGrow(s: State, run: seq<Action>)
    requires Inv(s) && Stamped(s.books) && forall a | a in run :: a.Advance? ==> a.env.now != ""
    ensures Inv(Run(s, run)) && Stamped(Run(s, run).books) && s.books.issues <= Run(s, run).books.issues
  {
    BooksStayConsistent(s, run);
    StampsStay(s, run);
  }

  ghost predicate Clocked(run: seq<Action>) { forall a | a in run :: a.Advance? ==> a.env.now != "" }

  /** THE PAGE UNDER INTERLEAVING. Items, issues and returns are read in three locked calls, in
      states s1, s2 and s3 of one run. The page is then off the conservation law by exactly
      the half-done and stranded quantities of s1, plus what was recorded as issued between
      the first two reads, minus what was recorded as returned between the first and the
      last. */
  lemma PageIsOffBy(s: State, r1: seq<Action>, r2: seq<Action>, r3: seq<Action>,
                    d: Summary, txs: seq<Transaction>, users: seq<User>, sc: Scope)
    requires Inv(s) && Stamped(s.books) && Clocked(r1) && Clocked(r2) && Clocked(r3) && (sc.OnlyItem? ==> sc.id != "")
    requires
      var s1 := Run(s, r1);
      var s2 := Run(s1, r2);
      ShowsRows(d, s1.books.items, s2.books.issues, Run(s2, r3).books.rets, txs, users, ItemFilter(sc))
    ensures
      var s1 := Run(s, r1);
      var s2 := Run(s1, r2);
      var s3 := Run(s2, r3);
      d.totalStock + d.totalIssued - d.totalReturned
      == Introduced(s, r1, sc) - OpenDebits(s1, sc) + OpenCredits(s1, sc)
         + (IssuedQty(s2, sc) - IssuedQty(s1, sc)) - (ReturnedQty(s3, sc) - ReturnedQty(s1, sc))
  {
    var s1 := Run(s, r1);
    var s2 := Run(s1, r2);
    var s3 := Run(s2, r3);
    StatesGrow(s, r1);
    StatesGrow(s1, r2);
    StatesGrow(s2, r3);
    OkBooksMatch(s3.books);
    TotalsShowLedger(d, s1.books.items, s2.books.issues, s3.books, txs, users, sc);
    StockIsConserved(s, r1, sc);
  }

  /** RECONCILIATION: a page made of one state of a run without overlapping returns (in
      particular a sequential one), with nothing half-done or stranded, shows without filters,
      or with only the item filter,
      TotalStock + TotalIssued - TotalReturned = everything introduced, and
      TotalReturned <= TotalIssued. */
  lemma DashboardReconciles(s: State, run: seq<Action>, d: Summary, txs: seq<Transaction>, users: seq<User>, sc: Scope)
    requires Inv(s) && Safe(s) && NoOverlapIn(s, run) && Settled(Run(s, run))
    requires Stamped(s.books) && Clocked(run) && (sc.OnlyItem? ==> sc.id != "")
    requires
      var b := Run(s, run).books;
      ShowsRows(d, b.items, b.issues, b.rets, txs, users, ItemFilter(sc))
    ensures d.totalStock + d.totalIssued - d.totalReturned == Introduced(s, run, sc)
    ensures d.totalReturned <= d.totalIssued
  {
    var t := Run(s, run);
    assert Run(t, []) == t;
    PageIsOffBy(s, run, [], [], d, txs, users, sc);
    StatesGrow(s, run);
    OkBooksMatch(t.books);
    TotalsShowLedger(d, t.books.items, t.books.issues, t.books, txs, users, sc);
    SumZero(t.calls, DebitW(sc));
    SumZero(t.calls, CreditW(sc));
    InvIsTracked(s);
    ReturnsNeverExceedIssue(s, run);
    ReturnsWithinIssues(t, sc);
  }

  /** The same for one service call at a time. */
  lemma DashboardReconcilesSequentially(s: State, run: seq<Action>, d: Summary, txs: seq<Transaction>,
                                        users: seq<User>, sc: Scope)
    requires Inv(s) && Safe(s) && SequentialIn(s, run) && Settled(Run(s, run))
    requires Stamped(s.books) && Clocked(run) && (sc.OnlyItem? ==> sc.id != "")
    requires
      var b := Run(s, run).books;
      ShowsRows(d, b.items, b.issues, b.rets, txs, users, ItemFilter(sc))
    ensures d.totalStock + d.totalIssued - d.totalReturned == Introduced(s, run, sc) && d.totalReturned <= d.totalIssued
  {
    SequentialNeverOverlaps(s, run);
    DashboardReconciles(s, run, d, txs, users, sc);
  }

  // ---- the page as the handler makes it ---------------------------------------------------------

  /** The page shows the rows of `b`, the issues in some order. */
  ghost predicate PageOf(d: Summary, b: Books, depts: seq<Department>, f: Filter, lib: Library, today: int) {
    exists txs :: multiset(txs) == multiset(b.issues) && Shows(d, b.items, txs, b.rets, b.users, depts, f, lib, today)
  }

  /** Reads items, issues, returns and users one after another and shows them. */
  method ShowDashboard(service: TransactionsService, depts: seq<Department>, f: Filter, lib: Library, today: int,
                       disk: nat -> Disk)
    returns (r: Result<Summary>)
    requires service.Valid()
    ensures r.Success? ==> PageOf(r.value, service.OnFile(), depts, f, lib, today)
  {
    var items := service.items.table.List(disk(4));
    if items.Failure? {
      return Failure(items.error);
    }
    var txs := service.List(disk(3));
    if txs.Failure? {
      return Failure(txs.error);
    }
    var rets := service.rets.List(disk(2));
    if rets.Failure? {
      return Failure(rets.error);
    }
    var users := service.users.List(disk(1));
    if users.Failure? {
      return Failure(users.error);
    }
    var d := Dashboard.Dashboard(items.value, txs.value, rets.value, users.value, depts, f, lib, today);
    r := Success(d);
  }
}
