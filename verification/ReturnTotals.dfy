/** Per item, what comes back was out: the bound of every single issue, added up. */
module ReturnTotals {
  import opened Models
  import opened Sums
  import opened Ledger
  import opened Conservation
  import opened Integrity
  import opened PartialReturns

  ghost function PromisedW(sc: Scope): Call -> int {
    (c: Call) => if Promised(c) && sc.Has(c.tx.itemId) then c.ra.qty else 0
  }

  const NO_ISSUE := Transaction("", "", "", 0, "", "", "", "")

  ghost function IssueOfReturn(issues: seq<Transaction>): Return -> Transaction {
    (r: Return) => var f := Find(issues, IssueKey, r.transactionId); if f.Some? then f.value else NO_ISSUE
  }

  ghost function IssueOfCall(): Call -> Transaction {
    (c: Call) => if Promised(c) then c.tx else NO_ISSUE
  }

  /** An issue's part of the returns of a scope. */
  lemma ReturnShare(b: Books, k: nat, sc: Scope)
    requires BooksOk(b) && k < |b.issues|
    ensures Bucket(b.rets, IssueOfReturn(b.issues), ReturnedW(sc))(b.issues[k])
         == if sc.Has(b.issues[k].itemId) then ReturnedFor(b, b.issues[k].id) else 0
  {
    var tx := b.issues[k];
    var rw := At(IssueOfReturn(b.issues), ReturnedW(sc), tx);
    FindUnique(b.issues, IssueKey, k);
    forall r | r in b.rets ensures rw(r) == if sc.Has(tx.itemId) then ReturnedForW(tx.id)(r) else 0 {
      var i :| 0 <= i < |b.rets| && b.rets[i] == r;
      assert ReturnRefers(b, b.rets[i]);
    }
    if sc.Has(tx.itemId) {
      SumCongruent(b.rets, rw, ReturnedForW(tx.id));
    } else {
      SumZero(b.rets, rw);
    }
  }

  /** An issue's part of the promises of a scope. */
  lemma PromiseShare(s: State, k: nat, sc: Scope)
    requires Inv(s) && k < |s.books.issues|
    ensures Bucket(s.calls, IssueOfCall(), PromisedW(sc))(s.books.issues[k])
         == if sc.Has(s.books.issues[k].itemId) then Sum(s.calls, WindowW(s.books.issues[k].id)) else 0
  {
    var tx := s.books.issues[k];
    var cw := At(IssueOfCall(), PromisedW(sc), tx);
    InvIsTracked(s);
    FindUnique(s.books.issues, IssueKey, k);
    forall c | c in s.calls ensures cw(c) == if sc.Has(tx.itemId) then WindowW(tx.id)(c) else 0 {
      if Promised(c) {
        PromiseFacts(s, c);
      }
    }
    if sc.Has(tx.itemId) {
      SumCongruent(s.calls, cw, WindowW(tx.id));
    } else {
      SumZero(s.calls, cw);
    }
  }

  lemma ReturnsByIssue(b: Books, sc: Scope)
    requires BooksOk(b)
    ensures Sum(b.issues, Bucket(b.rets, IssueOfReturn(b.issues), ReturnedW(sc))) == Sum(b.rets, ReturnedW(sc))
  {
    forall r | r in b.rets ensures IssueOfReturn(b.issues)(r) in b.issues {
      var i :| 0 <= i < |b.rets| && b.rets[i] == r;
      assert ReturnRefers(b, b.rets[i]);
    }
    IssuesDistinct(b);
    SumByKey(b.rets, b.issues, IssueOfReturn(b.issues), ReturnedW(sc));
  }

  lemma IssuesDistinct(b: Books)
    requires BooksOk(b)
    ensures Distinct(b.issues)
  {
    assert forall i, j | 0 <= i < j < |b.issues| :: IssueKey(b.issues[i]) != IssueKey(b.issues[j]);
  }

  lemma PromisesByIssue(s: State, sc: Scope)
    requires Inv(s)
    ensures Sum(s.books.issues, Bucket(s.calls, IssueOfCall(), PromisedW(sc))) == Sum(s.calls, PromisedW(sc))
    ensures 0 <= Sum(s.calls, PromisedW(sc))
  {
    InvIsTracked(s);
    forall c | c in s.calls
      ensures 0 <= PromisedW(sc)(c) && (PromisedW(sc)(c) != 0 ==> IssueOfCall()(c) in s.books.issues)
    {
      if Promised(c) {
        PromiseFacts(s, c);
      }
    }
    IssuesDistinct(s.books);
    SumByKey(s.calls, s.books.issues, IssueOfCall(), PromisedW(sc));
    SumNonNegative(s.calls, PromisedW(sc));
  }

  /** In a safe state, per item and overall, returns recorded or promised never
      exceed what was issued. */
  lemma ReturnsWithinIssues(s: State, sc: Scope)
    requires Inv(s) && Safe(s)
    ensures ReturnedQty(s, sc) + Sum(s.calls, PromisedW(sc)) <= IssuedQty(s, sc)
    ensures ReturnedQty(s, sc) <= IssuedQty(s, sc)
  {
    var issues := s.books.issues;
    var rb := Bucket(s.books.rets, IssueOfReturn(issues), ReturnedW(sc));
    var cb := Bucket(s.calls, IssueOfCall(), PromisedW(sc));
    var both := (tx: Transaction) => rb(tx) + cb(tx);
    ReturnsByIssue(s.books, sc);
    PromisesByIssue(s, sc);
    SumPlus(issues, rb, cb, both);
    forall tx | tx in issues ensures both(tx) <= IssuedW(sc)(tx) {
      var k :| 0 <= k < |issues| && issues[k] == tx;
      ReturnShare(s.books, k, sc);
      PromiseShare(s, k, sc);
      assert IssueRefers(s.books, issues[k]);
    }
    SumMonotone(issues, both, IssuedW(sc));
  }
}
