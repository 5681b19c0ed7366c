/** The choices of the return form: one pass over the returns, one over the issues. */
module ReturnForm {
  import opened Models
  import opened Sums
  import opened Ordering
  import opened Ledger
  import opened Integrity
  import opened PartialReturns
  import opened StockService
  import opened Machine

  datatype Choice = Choice(issueId: string, remaining: int)

  const ChoiceKey: Choice -> string := (c: Choice) => c.issueId

  /** Reading a Go map of integers: a missing key counts as zero. */
  function Tally<K>(m: map<K, int>, k: K): int {
    if k in m then m[k] else 0
  }

  /** The issues with something left, in list order. */
  ghost function Choices(issues: seq<Transaction>, rets: seq<Return>): seq<Choice> {
    if issues == [] then [] else
    var init, tx := Choices(issues[..|issues| - 1], rets), issues[|issues| - 1];
    var remaining := tx.quantity - Sum(rets, ReturnedForW(tx.id));
    if remaining <= 0 then init else init + [Choice(tx.id, remaining)]
  }

  method BuildReturnIssueOptions(issues: seq<Transaction>, rets: seq<Return>) returns (opts: seq<Choice>)
    ensures forall i, j | 0 <= i < j < |opts| :: StrLeq(opts[j].issueId, opts[i].issueId)
    ensures multiset(opts) == multiset(Choices(issues, rets))
  {
    var returnedByTx: map<string, int> := map[];
    for i := 0 to |rets|
      invariant forall id :: Tally(returnedByTx, id) == Sum(rets[..i], ReturnedForW(id))
    {
      var r := rets[i];
      assert rets[..i + 1][..i] == rets[..i];
      returnedByTx := returnedByTx[r.transactionId := Tally(returnedByTx, r.transactionId) + r.quantityReturned];
    }
    assert rets[..|rets|] == rets;

    opts := [];
    for i := 0 to |issues|
      invariant opts == Choices(issues[..i], rets)
    {
      assert issues[..i + 1][..i] == issues[..i];
      var remaining := issues[i].quantity - Tally(returnedByTx, issues[i].id);
      if remaining <= 0 {
        continue;
      }
      opts := opts + [Choice(issues[i].id, remaining)];
    }
    assert issues[..|issues|] == issues;
    opts := Sort(opts, ChoiceKey, true);
    assert forall i, j | 0 <= i < j < |opts| :: InOrder(ChoiceKey(opts[i]), ChoiceKey(opts[j]), true);
  }

  lemma {:induction false} ChoiceMembers(issues: seq<Transaction>, rets: seq<Return>, c: Choice)
    ensures c in Choices(issues, rets) <==>
              0 < c.remaining && exists tx ::
                  tx in issues && tx.id == c.issueId && c.remaining == tx.quantity - Sum(rets, ReturnedForW(tx.id))
  {
    if issues != [] {
      var init, tx := issues[..|issues| - 1], issues[|issues| - 1];
      ChoiceMembers(init, rets, c);
      assert forall t :: t in issues <==> t in init || t == tx;
    }
  }

  ghost predicate OfferedOnce(opts: seq<Choice>) {
    forall i, j | 0 <= i < j < |opts| :: opts[i].issueId != opts[j].issueId
  }

  lemma OneMoreOffer(opts: seq<Choice>, c: Choice)
    requires OfferedOnce(opts) && forall x | x in opts :: x.issueId != c.issueId
    ensures OfferedOnce(opts + [c])
  {
    forall i, j | 0 <= i < j < |opts| + 1 ensures (opts + [c])[i].issueId != (opts + [c])[j].issueId {
      assert opts[i] in opts;
    }
  }

  /** With distinct issue IDs no issue is offered twice. */
  lemma {:induction false} ChoicesDistinct(issues: seq<Transaction>, rets: seq<Return>)
    requires KeysDistinct(issues, IssueKey)
    ensures OfferedOnce(Choices(issues, rets))
  {
    if issues != [] {
      var init, tx := issues[..|issues| - 1], issues[|issues| - 1];
      ChoicesDistinct(init, rets);
      forall c | c in Choices(init, rets) ensures c.issueId != tx.id {
        ChoiceMembers(init, rets, c);
        var x :| x in init && x.id == c.issueId;
        var k :| 0 <= k < |init| && init[k] == x;
        assert IssueKey(issues[k]) != IssueKey(issues[|issues| - 1]);
      }
      OneMoreOffer(Choices(init, rets), Choice(tx.id, tx.quantity - Sum(rets, ReturnedForW(tx.id))));
    }
  }

  /** Whether `ReturnItem`, undisturbed and with working files, would accept. */
  ghost predicate Accepts(b: Books, id: string, qty: int, returner: string, receiver: string, newId: string) {
    Finish(Exact, b, StartReturn(ReturnArgs(id, qty, returner, receiver)), NoFaults(), newId, "").1.Returned?
  }

  ghost predicate LargestAccepted(b: Books, id: string, r: int, returner: string, receiver: string, newId: string) {
    && 0 < r && Accepts(b, id, r, returner, receiver, newId)
    && forall q :: Accepts(b, id, q, returner, receiver, newId) ==> q <= r
  }

  lemma AcceptsIff(b: Books, k: nat, qty: int, returner: string, receiver: string, newId: string)
    requires k < |b.issues| && KeysDistinct(b.issues, IssueKey) && b.issues[k].id != ""
    requires ItemExists(b.items, b.issues[k].itemId)
    requires IsWarehouse(b.users, receiver) && returner != "" && receiver != ""
    requires Find(b.rets, ReturnKey, newId).None?
    ensures Accepts(b, b.issues[k].id, qty, returner, receiver, newId)
       <==> 0 < qty <= b.issues[k].quantity - ReturnedFor(b, b.issues[k].id)
  {
    FindUnique(b.issues, IssueKey, k);
    ReturnSucceedsIff(b, ReturnArgs(b.issues[k].id, qty, returner, receiver), newId, "");
  }

  lemma UnknownNotAccepted(b: Books, id: string, qty: int, returner: string, receiver: string, newId: string)
    requires Find(b.issues, IssueKey, id).None?
    ensures !Accepts(b, id, qty, returner, receiver, newId)
  {
    ReturnSucceedsIff(b, ReturnArgs(id, qty, returner, receiver), newId, "");
  }

  lemma ListedChoiceIsLargest(b: Books, id: string, r: int, returner: string, receiver: string, newId: string)
    requires KeysDistinct(b.issues, IssueKey)
    requires forall tx | tx in b.issues :: tx.id != "" && ItemExists(b.items, tx.itemId)
    requires IsWarehouse(b.users, receiver) && returner != "" && receiver != ""
    requires Find(b.rets, ReturnKey, newId).None?
    ensures Choice(id, r) in Choices(b.issues, b.rets) <==> LargestAccepted(b, id, r, returner, receiver, newId)
  {
    ChoiceMembers(b.issues, b.rets, Choice(id, r));
    var f := Find(b.issues, IssueKey, id);
    if f.None? {
      FindNone(b.issues, IssueKey, id);
      UnknownNotAccepted(b, id, r, returner, receiver, newId);
    } else {
      var k :| 0 <= k < |b.issues| && b.issues[k] == f.value;
      var left := b.issues[k].quantity - ReturnedFor(b, id);
      forall q ensures Accepts(b, id, q, returner, receiver, newId) <==> 0 < q <= left {
        AcceptsIff(b, k, q, returner, receiver, newId);
      }
      forall tx | tx in b.issues && tx.id == id ensures tx == f.value {
        var j :| 0 <= j < |b.issues| && b.issues[j] == tx;
        assert IssueKey(b.issues[j]) == IssueKey(b.issues[k]);
      }
      assert left > 0 ==> Accepts(b, id, left, returner, receiver, newId);
    }
  }

  /** THE FORM AGREES WITH THE SERVICE: whatever order the issues are listed in, the
      form offers an issue with remaining quantity r exactly when `ReturnItem` accepts
      some positive quantity for it and r is the largest it accepts. */
  lemma FormAgreesWithService(b: Books, listed: seq<Transaction>, opts: seq<Choice>, returner: string,
                              receiver: string, newId: string)
    requires multiset(listed) == multiset(b.issues) && multiset(opts) == multiset(Choices(listed, b.rets))
    requires KeysDistinct(b.issues, IssueKey)
    requires forall tx | tx in b.issues :: tx.id != "" && ItemExists(b.items, tx.itemId)
    requires IsWarehouse(b.users, receiver) && returner != "" && receiver != ""
    requires Find(b.rets, ReturnKey, newId).None?
    ensures forall id, r :: Choice(id, r) in opts <==> LargestAccepted(b, id, r, returner, receiver, newId)
  {
    SameElements(listed, b.issues);
    SameElements(opts, Choices(listed, b.rets));
    forall id, r ensures Choice(id, r) in opts <==> LargestAccepted(b, id, r, returner, receiver, newId) {
      ChoiceMembers(listed, b.rets, Choice(id, r));
      ChoiceMembers(b.issues, b.rets, Choice(id, r));
      ListedChoiceIsLargest(b, id, r, returner, receiver, newId);
    }
  }
}
