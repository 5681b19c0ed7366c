/** The aggregation body of the dashboard handler, loop by loop. */
module Dashboard {
  import opened Models
  import opened Texts
  import opened Sums
  import opened Ordering
  import opened Ledger
  import opened ReturnForm
  import opened DashboardModel

  const LOW_STOCK_THRESHOLD := 10
  const EXPIRING_WITHIN_DAYS := 30
  const RECENT_ROWS := 10

  /** The text functions, and reading a date as a day number. */
  datatype Library = Library(text: Text, parseDay: Calendar)

  datatype Dataset = Dataset(name: string, data: seq<int>)

  datatype Summary = Summary(
    totalStock: int, totalIssued: int, totalReturned: int,
    lowStock: seq<Item>, expiring: seq<Item>, recent: seq<Event>,
    lineLabels: seq<string>, issuedCounts: seq<int>, returnedCounts: seq<int>,
    barLabels: seq<string>, itemQuantities: seq<int>,
    deptLabels: seq<string>, datasets: seq<Dataset>)

  // ---- events and totals -----------------------------------------------------------

  ghost predicate EventsShown(events: seq<Event>, totalIssued: int, totalReturned: int,
                              txs: seq<Transaction>, rets: seq<Return>, users: map<string, User>,
                              issues: map<string, Transaction>, f: Filter) {
    && events == IssueEvents(txs, users, f) + ReturnEvents(rets, users, issues, f)
    && totalIssued == Sum(events, IssuedQuantity)
    && totalReturned == Sum(events, ReturnedQuantity)
  }

  method CollectIssues(txs: seq<Transaction>, users: map<string, User>, f: Filter)
    returns (events: seq<Event>, totalIssued: int)
    ensures events == IssueEvents(txs, users, f)
    ensures totalIssued == Sum(events, IssuedQuantity) && 0 == Sum(events, ReturnedQuantity)
  {
    events, totalIssued := [], 0;
    for i := 0 to |txs|
      invariant events == IssueEvents(txs[..i], users, f)
      invariant totalIssued == Sum(events, IssuedQuantity) && 0 == Sum(events, ReturnedQuantity)
    {
      assert txs[..i + 1][..i] == txs[..i];
      if !KeepsIssue(txs[i], users, f) {
        continue;
      }
      var e := IssueEvent(txs[i], users);
      SumAppend(events, e, IssuedQuantity);
      SumAppend(events, e, ReturnedQuantity);
      totalIssued := totalIssued + txs[i].quantity;
      events := events + [e];
    }
    assert txs[..|txs|] == txs;
  }

  lemma NextReturnEvent(rets: seq<Return>, i: nat, users: map<string, User>, issues: map<string, Transaction>,
                        f: Filter)
    requires i < |rets|
    ensures ReturnEvents(rets[..i + 1], users, issues, f)
         == ReturnEvents(rets[..i], users, issues, f)
            + if KeepsReturn(rets[i], users, issues, f) then [ReturnEvent(rets[i], users, issues)] else []
  {
    assert rets[..i + 1][..i] == rets[..i];
  }

  lemma OneMoreReturn(events: seq<Event>, e: Event)
    requires !e.isIssue
    ensures Sum(events + [e], IssuedQuantity) == Sum(events, IssuedQuantity)
    ensures Sum(events + [e], ReturnedQuantity) == Sum(events, ReturnedQuantity) + e.quantity
  {
    SumAppend(events, e, IssuedQuantity);
    SumAppend(events, e, ReturnedQuantity);
  }

  /** The returns are appended to the issues. */
  method CollectEvents(txs: seq<Transaction>, rets: seq<Return>, users: map<string, User>,
                       issues: map<string, Transaction>, f: Filter)
    returns (events: seq<Event>, totalIssued: int, totalReturned: int)
    ensures EventsShown(events, totalIssued, totalReturned, txs, rets, users, issues, f)
  {
    events, totalIssued := CollectIssues(txs, users, f);
    totalReturned := 0;
    ghost var issued, returned := events, [];
    for i := 0 to |rets|
      invariant events == issued + returned && returned == ReturnEvents(rets[..i], users, issues, f)
      invariant totalIssued == Sum(events, IssuedQuantity) && totalReturned == Sum(events, ReturnedQuantity)
    {
      NextReturnEvent(rets, i, users, issues, f);
      if !KeepsReturn(rets[i], users, issues, f) {
        continue;
      }
      var e := ReturnEvent(rets[i], users, issues);
      OneMoreReturn(events, e);
      totalReturned := totalReturned + rets[i].quantityReturned;
      events, returned := events + [e], returned + [e];
    }
    assert rets[..|rets|] == rets;
  }

  // ---- tallies -----------------------------------------------------------------------

  /** The label of a user's department: its name, else its ID, else "N/A". */
  function DeptLabel(users: map<string, User>, depts: map<string, Department>, userId: string): string {
    var id := Lookup(users, userId, NO_USER).departmentId;
    var shown := if id in depts && depts[id].name != "" then depts[id].name else id;
    if shown == "" then "N/A" else shown
  }

  function DeptOf(users: map<string, User>, depts: map<string, Department>): Event -> string {
    (e: Event) => DeptLabel(users, depts, e.userId)
  }

  /** The five tables the loop over the events fills. */
  ghost predicate Aggregated(lineIssued: map<string, int>, lineReturned: map<string, int>, barItemQty: map<string, int>,
                             deptItemIssued: map<string, map<string, int>>, itemIds: set<string>,
                             events: seq<Event>, dept: Event -> string) {
    && Tallies(lineIssued, events, DateOf, IssueCount, IsIssue)
    && Tallies(lineReturned, events, DateOf, ReturnCount, IsReturn)
    && Tallies(barItemQty, events, DateOf, Quantity, AnyEvent)
    && NestedTallies(deptItemIssued, events, dept, NameOf, IssuedQuantity, IsIssue)
    && itemIds == set e | e in events && e.itemId != "" :: e.itemId
  }

  lemma AggregatedNone(dept: Event -> string)
    ensures Aggregated(map[], map[], map[], map[], {}, [], dept)
  {
  }

  lemma AggregatedNext(lineIssued: map<string, int>, lineReturned: map<string, int>, barItemQty: map<string, int>,
                       deptItemIssued: map<string, map<string, int>>, itemIds: set<string>,
                       events: seq<Event>, dept: Event -> string, ev: Event)
    requires Aggregated(lineIssued, lineReturned, barItemQty, deptItemIssued, itemIds, events, dept)
    ensures Aggregated(TallyAdd(lineIssued, ev, DateOf, IssueCount, IsIssue),
                       TallyAdd(lineReturned, ev, DateOf, ReturnCount, IsReturn),
                       TallyAdd(barItemQty, ev, DateOf, Quantity, AnyEvent),
                       if IsIssue(ev) then NestedAdd(deptItemIssued, dept(ev), NameOf(ev), IssuedQuantity(ev))
                       else deptItemIssued,
                       if ev.itemId != "" then itemIds + {ev.itemId} else itemIds,
                       events + [ev], dept)
  {
    TallyNext(lineIssued, events, ev, DateOf, IssueCount, IsIssue);
    TallyNext(lineReturned, events, ev, DateOf, ReturnCount, IsReturn);
    TallyNext(barItemQty, events, ev, DateOf, Quantity, AnyEvent);
    NestedNext(deptItemIssued, events, ev, dept, NameOf, IssuedQuantity, IsIssue);
    ItemIdsNext(events, ev);
  }

  lemma ItemIdsNext(events: seq<Event>, ev: Event)
    ensures (set e | e in events + [ev] && e.itemId != "" :: e.itemId)
         == (set e | e in events && e.itemId != "" :: e.itemId) + (if ev.itemId != "" then {ev.itemId} else {})
  {
    assert forall e :: e in events + [ev] <==> e in events || e == ev;
  }

  /** The body of the loop over the events. */
  method CountEvent(ev: Event, users: map<string, User>, depts: map<string, Department>,
                    lineIssued: map<string, int>, lineReturned: map<string, int>, barItemQty: map<string, int>,
                    deptItemIssued: map<string, map<string, int>>, itemIds: set<string>)
    returns (lineIssued': map<string, int>, lineReturned': map<string, int>, barItemQty': map<string, int>,
             deptItemIssued': map<string, map<string, int>>, itemIds': set<string>)
    ensures lineIssued' == TallyAdd(lineIssued, ev, DateOf, IssueCount, IsIssue)
    ensures lineReturned' == TallyAdd(lineReturned, ev, DateOf, ReturnCount, IsReturn)
    ensures barItemQty' == TallyAdd(barItemQty, ev, DateOf, Quantity, AnyEvent)
    ensures deptItemIssued'
         == if IsIssue(ev) then NestedAdd(deptItemIssued, DeptOf(users, depts)(ev), NameOf(ev), IssuedQuantity(ev))
            else deptItemIssued
    ensures itemIds' == if ev.itemId != "" then itemIds + {ev.itemId} else itemIds
  {
    lineIssued', lineReturned', barItemQty', deptItemIssued', itemIds' :=
        lineIssued, lineReturned, barItemQty, deptItemIssued, itemIds;
    if ev.itemId != "" {
      itemIds' := itemIds' + {ev.itemId};
    }
    if ev.isIssue {
      lineIssued' := lineIssued'[ev.dateKey := Tally(lineIssued', ev.dateKey) + 1];
      var dept := DeptLabel(users, depts, ev.userId);
      if dept !in deptItemIssued' {
        deptItemIssued' := deptItemIssued'[dept := map[]];
      }
      var row := deptItemIssued'[dept];
      deptItemIssued' := deptItemIssued'[dept := row[ev.itemName := Tally(row, ev.itemName) + ev.quantity]];
    } else {
      lineReturned' := lineReturned'[ev.dateKey := Tally(lineReturned', ev.dateKey) + 1];
    }
    barItemQty' := barItemQty'[ev.dateKey := Tally(barItemQty', ev.dateKey) + ev.quantity];
  }

  method Aggregate(events: seq<Event>, users: map<string, User>, depts: map<string, Department>)
    returns (lineIssued: map<string, int>, lineReturned: map<string, int>, barItemQty: map<string, int>,
             deptItemIssued: map<string, map<string, int>>, itemIds: set<string>)
    ensures Aggregated(lineIssued, lineReturned, barItemQty, deptItemIssued, itemIds, events, DeptOf(users, depts))
  {
    lineIssued, lineReturned, barItemQty, deptItemIssued, itemIds := map[], map[], map[], map[], {};
    AggregatedNone(DeptOf(users, depts));
    for i := 0 to |events|
      invariant Aggregated(lineIssued, lineReturned, barItemQty, deptItemIssued, itemIds, events[..i],
                           DeptOf(users, depts))
    {
      assert events[..i + 1] == events[..i] + [events[i]];
      AggregatedNext(lineIssued, lineReturned, barItemQty, deptItemIssued, itemIds, events[..i],
                     DeptOf(users, depts), events[i]);
      lineIssued, lineReturned, barItemQty, deptItemIssued, itemIds :=
        CountEvent(events[i], users, depts, lineIssued, lineReturned, barItemQty, deptItemIssued, itemIds);
    }
    assert events[..|events|] == events;
  }

  // ---- series ---------------------------------------------------------------------------

  method ReadOut(labels: seq<string>, m: map<string, int>) returns (counts: seq<int>)
    ensures |counts| == |labels| && forall i | 0 <= i < |labels| :: counts[i] == Tally(m, labels[i])
  {
    counts := [];
    for i := 0 to |labels|
      invariant |counts| == i && forall j | 0 <= j < i :: counts[j] == Tally(m, labels[j])
    {
      counts := counts + [Tally(m, labels[i])];
    }
  }

  ghost predicate DatesOf(labels: seq<string>, events: seq<Event>) {
    Increasing(labels) && forall d :: d in labels <==> exists e :: e in events && e.dateKey == d
  }

  /** A series has one entry per label, the events' weight on that date. */
  ghost predicate SeriesShown(labels: seq<string>, counts: seq<int>, events: seq<Event>, w: Event -> int) {
    |counts| == |labels| && forall i | 0 <= i < |labels| :: counts[i] == Sum(events, At(DateOf, w, labels[i]))
  }

  method Series(events: seq<Event>, lineIssued: map<string, int>, lineReturned: map<string, int>,
                barItemQty: map<string, int>)
    returns (lineLabels: seq<string>, issuedCounts: seq<int>, returnedCounts: seq<int>, barLabels: seq<string>,
             itemQuantities: seq<int>)
    requires Tallies(lineIssued, events, DateOf, IssueCount, IsIssue)
    requires Tallies(lineReturned, events, DateOf, ReturnCount, IsReturn)
    requires Tallies(barItemQty, events, DateOf, Quantity, AnyEvent)
    ensures DatesOf(lineLabels, events) && DatesOf(barLabels, events)
    ensures SeriesShown(lineLabels, issuedCounts, events, IssueCount)
    ensures SeriesShown(lineLabels, returnedCounts, events, ReturnCount)
    ensures SeriesShown(barLabels, itemQuantities, events, Quantity)
  {
    lineLabels := SortedKeys(lineIssued.Keys + lineReturned.Keys);
    issuedCounts := ReadOut(lineLabels, lineIssued);
    returnedCounts := ReadOut(lineLabels, lineReturned);
    barLabels := SortedKeys(barItemQty.Keys);
    itemQuantities := ReadOut(barLabels, barItemQty);
    forall k ensures Tally(lineIssued, k) == Sum(events, At(DateOf, IssueCount, k))
             && Tally(lineReturned, k) == Sum(events, At(DateOf, ReturnCount, k))
             && Tally(barItemQty, k) == Sum(events, At(DateOf, Quantity, k)) {
      UntalliedIsZero(lineIssued, events, DateOf, IssueCount, IsIssue, k);
      UntalliedIsZero(lineReturned, events, DateOf, ReturnCount, IsReturn, k);
      UntalliedIsZero(barItemQty, events, DateOf, Quantity, AnyEvent, k);
    }
    BothKindsCoverDates(events, lineIssued.Keys, lineReturned.Keys, barItemQty.Keys);
  }

  lemma BothKindsCoverDates(events: seq<Event>, issued: set<string>, returned: set<string>, all: set<string>)
    requires KeysOf(issued, events, DateOf, IsIssue) && KeysOf(returned, events, DateOf, IsReturn)
        && KeysOf(all, events, DateOf, AnyEvent)
    ensures forall d :: d in issued + returned <==> exists e :: e in events && e.dateKey == d
    ensures forall d :: d in all <==> exists e :: e in events && e.dateKey == d
  {
    forall d ensures d in issued + returned <==> exists e :: e in events && e.dateKey == d {
      if e :| e in events && e.dateKey == d {
        assert IsIssue(e) || IsReturn(e);
        assert DateOf(e) == d;
      }
    }
    forall d ensures d in all <==> exists e :: e in events && e.dateKey == d {
      if e :| e in events && e.dateKey == d {
        assert AnyEvent(e) && DateOf(e) == d;
      }
    }
  }

  // ---- department matrix -------------------------------------------------------------------

  function Names(datasets: seq<Dataset>): (names: seq<string>)
    ensures |names| == |datasets|
  {
    seq(|datasets|, i requires 0 <= i < |datasets| => datasets[i].name)
  }

  /** The values `k` takes on issue events. */
  ghost predicate IssueValues(values: seq<string>, events: seq<Event>, k: Event -> string) {
    Increasing(values) && forall v :: v in values <==> exists e :: e in events && e.isIssue && k(e) == v
  }

  ghost predicate RowShown(data: seq<int>, deptLabels: seq<string>, name: string, events: seq<Event>,
                           dept: Event -> string) {
    |data| == |deptLabels| && forall j | 0 <= j < |deptLabels| :: data[j] == Cell(events, dept, deptLabels[j], name)
  }

  ghost predicate MatrixShown(deptLabels: seq<string>, datasets: seq<Dataset>, events: seq<Event>,
                              dept: Event -> string) {
    && IssueValues(deptLabels, events, dept)
    && IssueValues(Names(datasets), events, NameOf)
    && forall i | 0 <= i < |datasets| :: RowShown(datasets[i].data, deptLabels, datasets[i].name, events, dept)
  }

  method MatrixRow(events: seq<Event>, deptItemIssued: map<string, map<string, int>>, ghost dept: Event -> string,
                   deptLabels: seq<string>, name: string)
    returns (data: seq<int>)
    requires NestedTallies(deptItemIssued, events, dept, NameOf, IssuedQuantity, IsIssue)
    requires forall d | d in deptLabels :: d in deptItemIssued
    ensures RowShown(data, deptLabels, name, events, dept)
  {
    data := [];
    for j := 0 to |deptLabels|
      invariant |data| == j
      invariant forall k | 0 <= k < j :: data[k] == Cell(events, dept, deptLabels[k], name)
    {
      var row := deptItemIssued[deptLabels[j]];
      UntalliedIsZero(row, events, NameOf, At(dept, IssuedQuantity, deptLabels[j]),
                      Among(dept, IsIssue, deptLabels[j]), name);
      data := data + [Tally(row, name)];
    }
  }

  method Matrix(events: seq<Event>, deptItemIssued: map<string, map<string, int>>, ghost dept: Event -> string)
    returns (deptLabels: seq<string>, datasets: seq<Dataset>)
    requires NestedTallies(deptItemIssued, events, dept, NameOf, IssuedQuantity, IsIssue)
    ensures MatrixShown(deptLabels, datasets, events, dept)
  {
    deptLabels := SortedKeys(deptItemIssued.Keys);
    var itemTypes := ItemTypes(deptItemIssued, deptLabels);
    datasets := [];
    for i := 0 to |itemTypes|
      invariant |datasets| == i
      invariant forall k | 0 <= k < i ::
          datasets[k].name == itemTypes[k] && RowShown(datasets[k].data, deptLabels, itemTypes[k], events, dept)
    {
      var data := MatrixRow(events, deptItemIssued, dept, deptLabels, itemTypes[i]);
      datasets := datasets + [Dataset(itemTypes[i], data)];
    }
    assert Names(datasets) == itemTypes;
    MatrixKeys(events, dept, deptItemIssued, deptLabels);
    ItemTypesAreIssueNames(events, deptItemIssued, dept, itemTypes);
  }

  method ItemTypes(m: map<string, map<string, int>>, deptLabels: seq<string>) returns (itemTypes: seq<string>)
    requires forall d :: d in deptLabels <==> d in m
    ensures Increasing(itemTypes)
    ensures forall n :: n in itemTypes <==> exists d :: d in m && n in m[d]
  {
    var itemTypeSet: set<string> := {};
    for i := 0 to |deptLabels|
      invariant forall n :: n in itemTypeSet <==> exists j :: 0 <= j < i && n in m[deptLabels[j]]
    {
      itemTypeSet := itemTypeSet + m[deptLabels[i]].Keys;
    }
    itemTypes := SortedKeys(itemTypeSet);
    forall n ensures n in itemTypeSet <==> exists d :: d in m && n in m[d] {
      if d :| d in m && n in m[d] {
        var j :| 0 <= j < |deptLabels| && deptLabels[j] == d;
      }
    }
  }

  lemma MatrixKeys(events: seq<Event>, dept: Event -> string, m: map<string, map<string, int>>, deptLabels: seq<string>)
    requires KeysOf(m.Keys, events, dept, IsIssue)
    requires Increasing(deptLabels) && forall d :: d in deptLabels <==> d in m
    ensures IssueValues(deptLabels, events, dept)
  {
    forall d ensures d in deptLabels <==> exists e :: e in events && e.isIssue && dept(e) == d {
      if e :| e in events && e.isIssue && dept(e) == d {
        assert IsIssue(e);
      }
    }
  }

  lemma ItemTypesAreIssueNames(events: seq<Event>, m: map<string, map<string, int>>, dept: Event -> string,
                               itemTypes: seq<string>)
    requires NestedTallies(m, events, dept, NameOf, IssuedQuantity, IsIssue)
    requires Increasing(itemTypes) && forall n :: n in itemTypes <==> exists d :: d in m && n in m[d]
    ensures IssueValues(itemTypes, events, NameOf)
  {
    forall n ensures n in itemTypes <==> exists e :: e in events && e.isIssue && NameOf(e) == n {
      if d :| d in m && n in m[d] {
        assert KeysOf(m[d].Keys, events, NameOf, Among(dept, IsIssue, d));
        var e :| e in events && Among(dept, IsIssue, d)(e) && NameOf(e) == n;
        assert e.isIssue;
      }
      if e :| e in events && e.isIssue && NameOf(e) == n {
        var d := dept(e);
        assert IsIssue(e) && d in m;
        assert KeysOf(m[d].Keys, events, NameOf, Among(dept, IsIssue, d));
        assert Among(dept, IsIssue, d)(e);
        assert n in m[d];
      }
    }
  }

  // ---- stock blocks ----------------------------------------------------------------------------

  /** Items in the filters' scope: the selected item, else, under a date, employee or
      department filter, the items of the events shown, else all. */
  predicate InScope(it: Item, f: Filter, itemIds: set<string>) {
    && (f.item == "" || it.id == f.item)
    && (!(f.from != "" || f.upto != "" || f.employee != "" || f.department != "") || f.item != "" || it.id in itemIds)
  }

  function Scoped(items: seq<Item>, f: Filter, itemIds: set<string>): seq<Item> {
    if items == [] then [] else
    var init, it := Scoped(items[..|items| - 1], f, itemIds), items[|items| - 1];
    if InScope(it, f, itemIds) then init + [it] else init
  }

  const ItemQuantity: Item -> int := (it: Item) => it.quantity
  const IsLow: Item -> bool := (it: Item) => it.quantity < LOW_STOCK_THRESHOLD

  function AlertKey(lib: Library): Item -> string {
    (it: Item) => if lib.text.Norm(it.name) == "" then it.id else lib.text.Norm(it.name)
  }

  function Expires(lib: Library, today: int): Item -> bool {
    (it: Item) =>
      && it.expiryDate != ""
      && var day := lib.parseDay(lib.text.trim(it.expiryDate));
         day.Some? && today <= day.value <= today + EXPIRING_WITHIN_DAYS
  }

  method ScopeItems(items: seq<Item>, f: Filter, itemIds: set<string>) returns (scoped: seq<Item>)
    ensures scoped == Scoped(items, f, itemIds)
  {
    scoped := [];
    for i := 0 to |items|
      invariant scoped == Scoped(items[..i], f, itemIds)
    {
      assert items[..i + 1][..i] == items[..i];
      if !InScope(items[i], f, itemIds) {
        continue;
      }
      scoped := scoped + [items[i]];
    }
    assert items[..|items|] == items;
  }

  ghost predicate Seen(seen: set<string>, shown: seq<Item>, key: Item -> string) {
    forall k :: k in seen <==> exists x :: x in shown && key(x) == k
  }

  lemma SeenNext(seen: set<string>, shown: seq<Item>, key: Item -> string, it: Item)
    requires Seen(seen, shown, key)
    ensures Seen(seen + {key(it)}, shown + [it], key)
    ensures key(it) !in seen <==> forall x | x in shown :: key(x) != key(it)
  {
    assert forall x :: x in shown + [it] <==> x in shown || x == it;
  }

  /** What the loop has shown of one alert list, and the keys it has noted. */
  ghost predicate AlertState(shown: seq<Item>, seen: set<string>, items: seq<Item>, qualifies: Item -> bool,
                             key: Item -> string) {
    shown == FirstPerKey(items, qualifies, key) && Seen(seen, shown, key)
  }

  /** `if qualifies(it) && !seen[key] { append; seen[key] = true }` */
  method NoteAlert(shown: seq<Item>, seen: set<string>, it: Item, qualifies: bool, k: string,
                   ghost items: seq<Item>, ghost test: Item -> bool, ghost key: Item -> string)
    returns (shown': seq<Item>, seen': set<string>)
    requires AlertState(shown, seen, items, test, key) && qualifies == test(it) && k == key(it)
    ensures AlertState(shown', seen', items + [it], test, key)
  {
    SeenNext(seen, shown, key, it);
    assert (items + [it])[..|items|] == items;
    shown', seen' := shown, seen;
    if qualifies && k !in seen {
      shown', seen' := shown + [it], seen + {k};
    }
  }

  method StockBlocks(scoped: seq<Item>, lib: Library, today: int)
    returns (totalStock: int, lowStock: seq<Item>, expiring: seq<Item>)
    ensures totalStock == Sum(scoped, ItemQuantity)
    ensures lowStock == FirstPerKey(scoped, IsLow, AlertKey(lib))
    ensures expiring == FirstPerKey(scoped, Expires(lib, today), AlertKey(lib))
  {
    totalStock, lowStock, expiring := 0, [], [];
    var seenLow: set<string>, seenExpiring: set<string> := {}, {};
    for i := 0 to |scoped|
      invariant totalStock == Sum(scoped[..i], ItemQuantity)
      invariant AlertState(lowStock, seenLow, scoped[..i], IsLow, AlertKey(lib))
      invariant AlertState(expiring, seenExpiring, scoped[..i], Expires(lib, today), AlertKey(lib))
    {
      var it := scoped[i];
      assert scoped[..i + 1] == scoped[..i] + [it];
      SumAppend(scoped[..i], it, ItemQuantity);
      totalStock := totalStock + it.quantity;
      var key := if lib.text.Norm(it.name) == "" then it.id else lib.text.Norm(it.name);
      lowStock, seenLow :=
          NoteAlert(lowStock, seenLow, it, it.quantity < LOW_STOCK_THRESHOLD, key, scoped[..i], IsLow, AlertKey(lib));
      var day := if it.expiryDate == "" then None else lib.parseDay(lib.text.trim(it.expiryDate));
      var soon := day.Some? && today <= day.value <= today + EXPIRING_WITHIN_DAYS;
      expiring, seenExpiring :=
          NoteAlert(expiring, seenExpiring, it, soon, key, scoped[..i], Expires(lib, today), AlertKey(lib));
    }
    assert scoped[..|scoped|] == scoped;
  }

  // ---- recent rows ------------------------------------------------------------------------------

  /** The ten latest events, latest first; the rest are no later than any shown. */
  ghost predicate LatestShown(recent: seq<Event>, events: seq<Event>) {
    && |recent| == (if |events| > RECENT_ROWS then RECENT_ROWS else |events|)
    && SortedBy(recent, StampOf, true)
    && multiset(recent) <= multiset(events)
    && forall shown: Event, other: Event :: shown in recent && other in multiset(events) - multiset(recent) ==>
         StrLeq(other.timestamp, shown.timestamp)
  }

  method Recent(events: seq<Event>) returns (recent: seq<Event>)
    ensures LatestShown(recent, events)
  {
    var all := Sort(events, StampOf, true);
    SameElements(all, events);
    var n := if |all| > RECENT_ROWS then RECENT_ROWS else |all|;
    HeadIsLatest(all, events, n);
    recent := all[..n];
  }

  lemma HeadIsLatest(all: seq<Event>, events: seq<Event>, n: nat)
    requires SortedBy(all, StampOf, true) && multiset(all) == multiset(events) && n <= |all|
    ensures multiset(all[..n]) <= multiset(events)
    ensures forall shown: Event, other: Event ::
        shown in all[..n] && other in multiset(events) - multiset(all[..n]) ==> StrLeq(other.timestamp, shown.timestamp)
  {
    assert all == all[..n] + all[n..];
    assert multiset(events) - multiset(all[..n]) == multiset(all[n..]);
    forall shown: Event, other: Event | shown in all[..n] && other in all[n..]
      ensures StrLeq(other.timestamp, shown.timestamp)
    {
      var i :| 0 <= i < n && all[i] == shown;
      var j :| n <= j < |all| && all[j] == other;
      assert InOrder(StampOf(all[i]), StampOf(all[j]), true);
    }
  }

  // ---- the page -----------------------------------------------------------------------------------

  /** The rows that pass the filters, issues first. */
  function Shown(txs: seq<Transaction>, rets: seq<Return>, users: seq<User>, f: Filter): seq<Event> {
    var um, im := ByKey(users, UserKey), ByKey(txs, IssueKey);
    IssueEvents(txs, um, f) + ReturnEvents(rets, um, im, f)
  }

  ghost predicate ShowsTotals(d: Summary, events: seq<Event>) {
    d.totalIssued == Sum(events, IssuedQuantity) && d.totalReturned == Sum(events, ReturnedQuantity)
  }

  ghost predicate ShowsSeries(d: Summary, events: seq<Event>) {
    && DatesOf(d.lineLabels, events) && DatesOf(d.barLabels, events)
    && SeriesShown(d.lineLabels, d.issuedCounts, events, IssueCount)
    && SeriesShown(d.lineLabels, d.returnedCounts, events, ReturnCount)
    && SeriesShown(d.barLabels, d.itemQuantities, events, Quantity)
  }

  ghost predicate ShowsMatrix(d: Summary, events: seq<Event>, users: seq<User>, depts: seq<Department>) {
    MatrixShown(d.deptLabels, d.datasets, events, DeptOf(ByKey(users, UserKey), ByKey(depts, DepartmentKey)))
  }

  function ItemIds(events: seq<Event>): set<string> { set e | e in events && e.itemId != "" :: e.itemId }

  ghost predicate ShowsStock(d: Summary, items: seq<Item>, events: seq<Event>, f: Filter) {
    d.totalStock == Sum(Scoped(items, f, ItemIds(events)), ItemQuantity)
  }

  ghost predicate ShowsAlerts(d: Summary, items: seq<Item>, events: seq<Event>, f: Filter, lib: Library, today: int) {
    && d.lowStock == FirstPerKey(Scoped(items, f, ItemIds(events)), IsLow, AlertKey(lib))
    && d.expiring == FirstPerKey(Scoped(items, f, ItemIds(events)), Expires(lib, today), AlertKey(lib))
  }

  /** Everything the page shows, in terms of the rows it was given. */
  ghost predicate Shows(d: Summary, items: seq<Item>, txs: seq<Transaction>, rets: seq<Return>, users: seq<User>,
                        depts: seq<Department>, f: Filter, lib: Library, today: int) {
    var events := Shown(txs, rets, users, f);
    && ShowsTotals(d, events) && ShowsSeries(d, events) && ShowsMatrix(d, events, users, depts)
    && ShowsStock(d, items, events, f) && ShowsAlerts(d, items, events, f, lib, today)
    && LatestShown(d.recent, events)
  }

  const DepartmentKey: Department -> string := (d: Department) => d.id

  method Dashboard(items: seq<Item>, txs: seq<Transaction>, rets: seq<Return>, users: seq<User>, depts: seq<Department>,
                   f: Filter, lib: Library, today: int) returns (d: Summary)
    ensures Shows(d, items, txs, rets, users, depts, f, lib, today)
  {
    var deptMap := IndexRows(depts, DepartmentKey);
    var userMap := IndexRows(users, UserKey);
    var issueMap := IndexRows(txs, IssueKey);
    var events, totalIssued, totalReturned := CollectEvents(txs, rets, userMap, issueMap, f);
    var lineIssued, lineReturned, barItemQty, deptItemIssued, itemIds := Aggregate(events, userMap, deptMap);
    var scoped := ScopeItems(items, f, itemIds);
    var totalStock, lowStock, expiring := StockBlocks(scoped, lib, today);
    var lineLabels, issuedCounts, returnedCounts, barLabels, itemQuantities :=
        Series(events, lineIssued, lineReturned, barItemQty);
    var deptLabels, datasets := Matrix(events, deptItemIssued, DeptOf(userMap, deptMap));
    var recent := Recent(events);
    d := Summary(totalStock, totalIssued, totalReturned, lowStock, expiring, recent,
                 lineLabels, issuedCounts, returnedCounts, barLabels, itemQuantities, deptLabels, datasets);
  }
}
