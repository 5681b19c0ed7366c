/** What the dashboard shows, stated over the rows: which rows pass the filters,
    the events they give, and tallies of events by key. */
module DashboardModel {
  import opened Models
  import opened Sums
  import opened Ordering
  import opened Dates
  import opened Integrity
  import opened ReturnTotals
  import opened ReturnForm

  datatype Filter = Filter(from: string, upto: string, employee: string, department: string, item: string)

  datatype Event = Event(
    itemId: string, itemName: string, isIssue: bool, quantity: int,
    userId: string, userName: string, timestamp: string, dateKey: string)

  const NO_USER := User("", "", "", "", "")

  // ---- lookup maps ------------------------------------------------------------------

  /** The map a loop `m[x.ID] = x` builds: the last row with a key wins. */
  function ByKey<T>(s: seq<T>, key: T -> string): map<string, T> {
    if s == [] then map[] else ByKey(s[..|s| - 1], key)[key(s[|s| - 1]) := s[|s| - 1]]
  }

  /** Reading such a map: a missing key gives the zero record. */
  function Lookup<T>(m: map<string, T>, k: string, zero: T): T {
    if k in m then m[k] else zero
  }

  method IndexRows<T>(s: seq<T>, key: T -> string) returns (m: map<string, T>)
    ensures m == ByKey(s, key)
  {
    m := map[];
    for i := 0 to |s|
      invariant m == ByKey(s[..i], key)
    {
      assert s[..i + 1][..i] == s[..i];
      m := m[key(s[i]) := s[i]];
    }
    assert s[..|s|] == s;
  }

  lemma {:induction false} ByKeyHolds<T>(s: seq<T>, key: T -> string)
    ensures forall k | k in ByKey(s, key) :: ByKey(s, key)[k] in s && key(ByKey(s, key)[k]) == k
    ensures forall x | x in s :: key(x) in ByKey(s, key)
  {
    if s != [] {
      ByKeyHolds(s[..|s| - 1], key);
      assert s == s[..|s| - 1] + [s[|s| - 1]];
    }
  }

  /** The last row with a key wins. */
  lemma {:induction false} LastRowWins<T>(s: seq<T>, key: T -> string, i: nat)
    requires i < |s| && forall j | i < j < |s| :: key(s[j]) != key(s[i])
    ensures key(s[i]) in ByKey(s, key) && ByKey(s, key)[key(s[i])] == s[i]
  {
    if i < |s| - 1 {
      LastRowWins(s[..|s| - 1], key, i);
    }
  }

  /** With distinct keys the map agrees with the repository's first match, in any listing order. */
  lemma ByKeyAgreesWithFind<T>(listed: seq<T>, rows: seq<T>, key: T -> string, k: string)
    requires multiset(listed) == multiset(rows) && KeysDistinct(rows, key)
    ensures k in ByKey(listed, key) <==> Find(rows, key, k).Some?
    ensures k in ByKey(listed, key) ==> ByKey(listed, key)[k] == Find(rows, key, k).value
  {
    SameElements(listed, rows);
    ByKeyHolds(listed, key);
    FindNone(rows, key, k);
    if k in ByKey(listed, key) {
      var i :| 0 <= i < |rows| && rows[i] == ByKey(listed, key)[k];
      FindUnique(rows, key, i);
    }
  }

  // ---- rows that pass the filters -----------------------------------------------------

  predicate KeepsIssue(tx: Transaction, users: map<string, User>, f: Filter) {
    && WithinDateRange(DateKey(tx.timestamp), f.from, f.upto)
    && (f.employee == "" || tx.issuedToUserId == f.employee)
    && (f.department == "" || Lookup(users, tx.issuedToUserId, NO_USER).departmentId == f.department)
    && (f.item == "" || tx.itemId == f.item)
  }

  /** The item of a return is its issue's, or its own if the issue has none. */
  function ItemOfReturn(r: Return, issues: map<string, Transaction>): string {
    var issued := Lookup(issues, r.transactionId, NO_ISSUE).itemId;
    if issued == "" then r.itemId else issued
  }

  predicate KeepsReturn(r: Return, users: map<string, User>, issues: map<string, Transaction>, f: Filter) {
    && WithinDateRange(DateKey(r.timestamp), f.from, f.upto)
    && (f.employee == "" || r.returnedByUserId == f.employee)
    && (f.department == "" || Lookup(users, r.returnedByUserId, NO_USER).departmentId == f.department)
    && (f.item == "" || ItemOfReturn(r, issues) == f.item)
  }

  function IssueEvent(tx: Transaction, users: map<string, User>): Event {
    Event(tx.itemId, tx.itemName, true, tx.quantity, tx.issuedToUserId,
          Lookup(users, tx.issuedToUserId, NO_USER).name, tx.timestamp, DateKey(tx.timestamp))
  }

  function ReturnEvent(r: Return, users: map<string, User>, issues: map<string, Transaction>): Event {
    Event(ItemOfReturn(r, issues), Lookup(issues, r.transactionId, NO_ISSUE).itemName, false, r.quantityReturned,
          r.returnedByUserId, Lookup(users, r.returnedByUserId, NO_USER).name, r.timestamp, DateKey(r.timestamp))
  }

  function IssueEvents(txs: seq<Transaction>, users: map<string, User>, f: Filter): seq<Event> {
    if txs == [] then [] else
    var init, tx := IssueEvents(txs[..|txs| - 1], users, f), txs[|txs| - 1];
    if KeepsIssue(tx, users, f) then init + [IssueEvent(tx, users)] else init
  }

  function ReturnEvents(rets: seq<Return>, users: map<string, User>, issues: map<string, Transaction>,
                        f: Filter): seq<Event> {
    if rets == [] then [] else
    var init, r := ReturnEvents(rets[..|rets| - 1], users, issues, f), rets[|rets| - 1];
    if KeepsReturn(r, users, issues, f) then init + [ReturnEvent(r, users, issues)] else init
  }

  // ---- weights ---------------------------------------------------------------------------

  const IssuedQuantity: Event -> int := (e: Event) => if e.isIssue then e.quantity else 0
  const ReturnedQuantity: Event -> int := (e: Event) => if e.isIssue then 0 else e.quantity
  const Quantity: Event -> int := (e: Event) => e.quantity
  const IssueCount: Event -> int := (e: Event) => if e.isIssue then 1 else 0
  const ReturnCount: Event -> int := (e: Event) => if e.isIssue then 0 else 1
  const DateOf: Event -> string := (e: Event) => e.dateKey
  const NameOf: Event -> string := (e: Event) => e.itemName
  const StampOf: Event -> string := (e: Event) => e.timestamp
  const IsIssue: Event -> bool := (e: Event) => e.isIssue
  const IsReturn: Event -> bool := (e: Event) => !e.isIssue
  const AnyEvent: Event -> bool := (e: Event) => true

  ghost function KeptIssueW(users: map<string, User>, f: Filter): Transaction -> int {
    (tx: Transaction) => if KeepsIssue(tx, users, f) then tx.quantity else 0
  }

  ghost function KeptReturnW(users: map<string, User>, issues: map<string, Transaction>, f: Filter): Return -> int {
    (r: Return) => if KeepsReturn(r, users, issues, f) then r.quantityReturned else 0
  }

  /** Adding up events is adding up the rows that pass. */
  lemma {:induction false} IssueEventsTotal(txs: seq<Transaction>, users: map<string, User>, f: Filter)
    ensures Sum(IssueEvents(txs, users, f), IssuedQuantity) == Sum(txs, KeptIssueW(users, f))
    ensures Sum(IssueEvents(txs, users, f), ReturnedQuantity) == 0
    ensures forall e | e in IssueEvents(txs, users, f) :: e.isIssue
  {
    if txs != [] {
      var init, tx := txs[..|txs| - 1], txs[|txs| - 1];
      IssueEventsTotal(init, users, f);
      SumAppend(IssueEvents(init, users, f), IssueEvent(tx, users), IssuedQuantity);
      SumAppend(IssueEvents(init, users, f), IssueEvent(tx, users), ReturnedQuantity);
    }
  }

  lemma {:induction false} ReturnEventsTotal(rets: seq<Return>, users: map<string, User>,
                                             issues: map<string, Transaction>, f: Filter)
    ensures Sum(ReturnEvents(rets, users, issues, f), ReturnedQuantity) == Sum(rets, KeptReturnW(users, issues, f))
    ensures Sum(ReturnEvents(rets, users, issues, f), IssuedQuantity) == 0
    ensures forall e | e in ReturnEvents(rets, users, issues, f) :: !e.isIssue
  {
    if rets != [] {
      var init, r := rets[..|rets| - 1], rets[|rets| - 1];
      ReturnEventsTotal(init, users, issues, f);
      SumAppend(ReturnEvents(init, users, issues, f), ReturnEvent(r, users, issues), ReturnedQuantity);
      SumAppend(ReturnEvents(init, users, issues, f), ReturnEvent(r, users, issues), IssuedQuantity);
    }
  }

  // ---- tallies by key -----------------------------------------------------------------------

  ghost predicate KeysOf(keys: set<string>, s: seq<Event>, key: Event -> string, relevant: Event -> bool) {
    forall k :: k in keys <==> exists e :: e in s && relevant(e) && key(e) == k
  }

  lemma KeysOfNext(keys: set<string>, s: seq<Event>, e: Event, key: Event -> string, relevant: Event -> bool)
    requires KeysOf(keys, s, key, relevant)
    ensures KeysOf(if relevant(e) then keys + {key(e)} else keys, s + [e], key, relevant)
  {
    assert forall x :: x in s + [e] <==> x in s || x == e;
  }

  /** `m` holds exactly the keys of the relevant events, each with its total weight. */
  ghost predicate Tallies(m: map<string, int>, s: seq<Event>, key: Event -> string, w: Event -> int,
                          relevant: Event -> bool) {
    && KeysOf(m.Keys, s, key, relevant)
    && (forall k | k in m :: m[k] == Sum(s, At(key, w, k)))
  }

  ghost predicate Weightless(w: Event -> int, relevant: Event -> bool) {
    forall e: Event :: !relevant(e) ==> w(e) == 0
  }

  lemma UntalliedIsZero(m: map<string, int>, s: seq<Event>, key: Event -> string, w: Event -> int,
                        relevant: Event -> bool, k: string)
    requires Tallies(m, s, key, w, relevant) && Weightless(w, relevant)
    ensures Tally(m, k) == Sum(s, At(key, w, k))
  {
    if k !in m {
      SumZero(s, At(key, w, k));
    }
  }

  /** `m[key(e)] += w(e)` for a relevant event. */
  function TallyAdd(m: map<string, int>, e: Event, key: Event -> string, w: Event -> int,
                    relevant: Event -> bool): map<string, int> {
    if relevant(e) then m[key(e) := Tally(m, key(e)) + w(e)] else m
  }

  lemma TallyNext(m: map<string, int>, s: seq<Event>, e: Event, key: Event -> string, w: Event -> int,
                  relevant: Event -> bool)
    requires Tallies(m, s, key, w, relevant) && Weightless(w, relevant)
    ensures Tallies(TallyAdd(m, e, key, w, relevant), s + [e], key, w, relevant)
  {
    var m' := TallyAdd(m, e, key, w, relevant);
    UntalliedIsZero(m, s, key, w, relevant, key(e));
    KeysOfNext(m.Keys, s, e, key, relevant);
    assert m'.Keys == if relevant(e) then m.Keys + {key(e)} else m.Keys;
    forall k | k in m' ensures m'[k] == Sum(s + [e], At(key, w, k)) {
      SumAppend(s, e, At(key, w, k));
    }
  }

  ghost function Among(outer: Event -> string, relevant: Event -> bool, d: string): Event -> bool {
    (e: Event) => relevant(e) && outer(e) == d
  }

  /** A two-level tally: by `outer`, then by `inner`. */
  ghost predicate NestedTallies(m: map<string, map<string, int>>, s: seq<Event>, outer: Event -> string,
                                inner: Event -> string, w: Event -> int, relevant: Event -> bool) {
    && KeysOf(m.Keys, s, outer, relevant)
    && (forall d | d in m :: Tallies(m[d], s, inner, At(outer, w, d), Among(outer, relevant, d)))
  }

  function NestedAdd(m: map<string, map<string, int>>, d: string, i: string, v: int): map<string, map<string, int>> {
    var row := if d in m then m[d] else map[];
    m[d := row[i := Tally(row, i) + v]]
  }

  lemma NestedNext(m: map<string, map<string, int>>, s: seq<Event>, e: Event, outer: Event -> string,
                   inner: Event -> string, w: Event -> int, relevant: Event -> bool)
    requires NestedTallies(m, s, outer, inner, w, relevant) && Weightless(w, relevant)
    ensures NestedTallies(if relevant(e) then NestedAdd(m, outer(e), inner(e), w(e)) else m,
                          s + [e], outer, inner, w, relevant)
  {
    var m' := if relevant(e) then NestedAdd(m, outer(e), inner(e), w(e)) else m;
    KeysOfNext(m.Keys, s, e, outer, relevant);
    assert m'.Keys == if relevant(e) then m.Keys + {outer(e)} else m.Keys;
    forall d | d in m' ensures Tallies(m'[d], s + [e], inner, At(outer, w, d), Among(outer, relevant, d)) {
      NestedRowNext(m, s, e, outer, inner, w, relevant, d);
    }
  }

  lemma NestedRowNext(m: map<string, map<string, int>>, s: seq<Event>, e: Event, outer: Event -> string,
                      inner: Event -> string, w: Event -> int, relevant: Event -> bool, d: string)
    requires NestedTallies(m, s, outer, inner, w, relevant) && Weightless(w, relevant)
    requires d in m || (relevant(e) && d == outer(e))
    ensures
      var m' := if relevant(e) then NestedAdd(m, outer(e), inner(e), w(e)) else m;
      d in m' && Tallies(m'[d], s + [e], inner, At(outer, w, d), Among(outer, relevant, d))
  {
    RowTallies(m, s, outer, inner, w, relevant, d);
    TallyNext(if d in m then m[d] else map[], s, e, inner, At(outer, w, d), Among(outer, relevant, d));
  }

  lemma RowTallies(m: map<string, map<string, int>>, s: seq<Event>, outer: Event -> string, inner: Event -> string,
                   w: Event -> int, relevant: Event -> bool, d: string)
    requires NestedTallies(m, s, outer, inner, w, relevant) && Weightless(w, relevant)
    ensures Tallies(if d in m then m[d] else map[], s, inner, At(outer, w, d), Among(outer, relevant, d))
    ensures Weightless(At(outer, w, d), Among(outer, relevant, d))
  {
  }

  /** The cell of the matrix for department `d` and item name `i`. */
  ghost function Cell(s: seq<Event>, dept: Event -> string, d: string, i: string): int {
    Sum(s, At(NameOf, At(dept, IssuedQuantity, d), i))
  }

  // ---- one alert per product --------------------------------------------------------------------

  /** The first qualifying item of every key, in order. */
  function FirstPerKey(items: seq<Item>, qualifies: Item -> bool, key: Item -> string): seq<Item> {
    if items == [] then [] else
    var init, it := FirstPerKey(items[..|items| - 1], qualifies, key), items[|items| - 1];
    if qualifies(it) && (forall x | x in init :: key(x) != key(it)) then init + [it] else init
  }

  /** No earlier qualifying item has the key of item `k`. */
  ghost predicate FirstOfKey(items: seq<Item>, qualifies: Item -> bool, key: Item -> string, k: nat)
    requires k < |items|
  {
    qualifies(items[k]) && forall j | 0 <= j < k :: qualifies(items[j]) ==> key(items[j]) != key(items[k])
  }

  ghost predicate IsFirstOfKey(items: seq<Item>, qualifies: Item -> bool, key: Item -> string, x: Item) {
    exists k: nat :: k < |items| && items[k] == x && FirstOfKey(items, qualifies, key, k)
  }

  ghost predicate KeyListed(out: seq<Item>, key: Item -> string, k: string) {
    exists x :: x in out && key(x) == k
  }

  /** Every qualifying item has its key listed. */
  lemma {:induction false} AlertsCover(items: seq<Item>, qualifies: Item -> bool, key: Item -> string)
    ensures forall it | it in items && qualifies(it) :: KeyListed(FirstPerKey(items, qualifies, key), key, key(it))
  {
    if items != [] {
      var last := |items| - 1;
      AlertsCover(items[..last], qualifies, key);
      var init, out := FirstPerKey(items[..last], qualifies, key), FirstPerKey(items, qualifies, key);
      forall it | it in items && qualifies(it) ensures KeyListed(out, key, key(it)) {
        assert it in items[..last] || it == items[last];
        if KeyListed(init, key, key(it)) {
          var x :| x in init && key(x) == key(it);
          assert x in out;
        } else {
          assert out == init + [it];
          assert it in out;
        }
      }
    }
  }

  lemma FirstStaysFirst(items: seq<Item>, last: nat, qualifies: Item -> bool, key: Item -> string, x: Item)
    requires last <= |items| && IsFirstOfKey(items[..last], qualifies, key, x)
    ensures IsFirstOfKey(items, qualifies, key, x)
  {
    var k: nat :| k < last && items[..last][k] == x && FirstOfKey(items[..last], qualifies, key, k);
    assert items[k] == x;
    forall j | 0 <= j < k ensures qualifies(items[j]) ==> key(items[j]) != key(items[k]) {
      assert items[..last][j] == items[j];
    }
    assert FirstOfKey(items, qualifies, key, k);
  }

  lemma NewAlertIsFirst(items: seq<Item>, qualifies: Item -> bool, key: Item -> string)
    requires items != [] && qualifies(items[|items| - 1])
    requires !KeyListed(FirstPerKey(items[..|items| - 1], qualifies, key), key, key(items[|items| - 1]))
    ensures IsFirstOfKey(items, qualifies, key, items[|items| - 1])
  {
    var last := |items| - 1;
    AlertsCover(items[..last], qualifies, key);
    forall j | 0 <= j < last ensures qualifies(items[j]) ==> key(items[j]) != key(items[last]) {
      assert items[..last][j] == items[j] && items[j] in items[..last];
    }
    assert FirstOfKey(items, qualifies, key, last);
  }

  ghost predicate OncePerKey(out: seq<Item>, key: Item -> string) {
    forall i, j | 0 <= i < j < |out| :: key(out[i]) != key(out[j])
  }

  lemma NewKeyOnce(out: seq<Item>, it: Item, key: Item -> string)
    requires OncePerKey(out, key) && forall x | x in out :: key(x) != key(it)
    ensures OncePerKey(out + [it], key)
  {
    forall i, j | 0 <= i < j < |out| + 1 ensures key((out + [it])[i]) != key((out + [it])[j]) {
      assert out[i] in out;
    }
  }

  lemma {:induction false} AlertsDistinct(items: seq<Item>, qualifies: Item -> bool, key: Item -> string)
    ensures OncePerKey(FirstPerKey(items, qualifies, key), key)
  {
    if items != [] {
      var init, it := FirstPerKey(items[..|items| - 1], qualifies, key), items[|items| - 1];
      AlertsDistinct(items[..|items| - 1], qualifies, key);
      if FirstPerKey(items, qualifies, key) != init {
        NewKeyOnce(init, it, key);
      }
    }
  }

  lemma {:induction false} AlertsAreFirsts(items: seq<Item>, qualifies: Item -> bool, key: Item -> string, x: Item)
    requires x in FirstPerKey(items, qualifies, key)
    ensures IsFirstOfKey(items, qualifies, key, x)
  {
    var last := |items| - 1;
    var init := FirstPerKey(items[..last], qualifies, key);
    if x in init {
      AlertsAreFirsts(items[..last], qualifies, key, x);
      FirstStaysFirst(items, last, qualifies, key, x);
    } else {
      assert x == items[last];
      NewAlertIsFirst(items, qualifies, key);
    }
  }

  /** DEDUPLICATION drops only repeats: everything listed is the first qualifying item
      of its key, no key is listed twice, and every qualifying item has its key listed. */
  lemma {:induction false} AlertsListFirsts(items: seq<Item>, qualifies: Item -> bool, key: Item -> string)
    ensures
      var out := FirstPerKey(items, qualifies, key);
      && OncePerKey(out, key)
      && (forall x | x in out :: IsFirstOfKey(items, qualifies, key, x))
      && (forall it | it in items && qualifies(it) :: KeyListed(out, key, key(it)))
  {
    AlertsCover(items, qualifies, key);
    AlertsDistinct(items, qualifies, key);
    forall x | x in FirstPerKey(items, qualifies, key) ensures IsFirstOfKey(items, qualifies, key, x) {
      AlertsAreFirsts(items, qualifies, key, x);
    }
  }
}
