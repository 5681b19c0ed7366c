/** String order, dates as string prefixes, and sorting. Go compares strings byte by byte. */
module Ordering {
  import opened Sums

  predicate StrLess(a: string, b: string) {
    if b == "" then false
    else if a == "" then true
    else a[0] < b[0] || (a[0] == b[0] && StrLess(a[1..], b[1..]))
  }

  predicate StrLeq(a: string, b: string) { !StrLess(b, a) }

  lemma {:induction false} StrTotal(a: string, b: string)
    ensures StrLess(a, b) || a == b || StrLess(b, a)
    ensures !(StrLess(a, b) && StrLess(b, a)) && !(a == b && StrLess(a, b))
  {
    if a != "" && b != "" && a[0] == b[0] {
      StrTotal(a[1..], b[1..]);
      assert a == [a[0]] + a[1..] && b == [b[0]] + b[1..];
    }
  }

  lemma {:induction false} StrTransitive(a: string, b: string, c: string)
    requires StrLess(a, b) && StrLess(b, c)
    ensures StrLess(a, c)
  {
    if a != "" && a[0] == b[0] == c[0] {
      StrTransitive(a[1..], b[1..], c[1..]);
    }
  }

  /** Byte by byte: a proper prefix comes first, else the first difference decides. */
  lemma {:induction false} BytewiseOrder(p: string, c: char, d: char, a: string, b: string)
    ensures StrLess(p, p + [c] + a)
    ensures StrLess(p + [c] + a, p + [d] + b) <==> c < d || (c == d && StrLess(a, b))
    decreases p
  {
    if p == "" {
      assert ([c] + a)[1..] == a && ([d] + b)[1..] == b && p + [c] + a == [c] + a && p + [d] + b == [d] + b;
    } else {
      BytewiseOrder(p[1..], c, d, a, b);
      assert (p + [c] + a)[1..] == p[1..] + [c] + a && (p + [d] + b)[1..] == p[1..] + [d] + b;
    }
  }

  lemma LeqTransitive(a: string, b: string, c: string)
    requires StrLeq(a, b) && StrLeq(b, c)
    ensures StrLeq(a, c)
  {
    StrTotal(a, b);
    StrTotal(b, c);
    if StrLess(c, a) {
      if a == b || b == c {
      } else {
        StrTransitive(a, b, c);
        StrTotal(a, c);
      }
    }
  }

  // ---- sorting -----------------------------------------------------------------

  /** Whether key `a` may stand before key `b`. */
  predicate InOrder(a: string, b: string, descending: bool) {
    if descending then StrLeq(b, a) else StrLeq(a, b)
  }

  ghost predicate SortedBy<T>(s: seq<T>, key: T -> string, descending: bool) {
    forall i, j | 0 <= i < j < |s| :: InOrder(key(s[i]), key(s[j]), descending)
  }

  lemma InOrderTotal(a: string, b: string, descending: bool)
    ensures InOrder(a, b, descending) || InOrder(b, a, descending)
  {
    StrTotal(a, b);
  }

  lemma InOrderTransitive(a: string, b: string, c: string, descending: bool)
    requires InOrder(a, b, descending) && InOrder(b, c, descending)
    ensures InOrder(a, c, descending)
  {
    if descending { LeqTransitive(c, b, a); } else { LeqTransitive(a, b, c); }
  }

  lemma InsertSorted<T>(s: seq<T>, p: nat, x: T, key: T -> string, descending: bool)
    requires SortedBy(s, key, descending) && p <= |s|
    requires p > 0 ==> InOrder(key(s[p - 1]), key(x), descending)
    requires p < |s| ==> InOrder(key(x), key(s[p]), descending)
    ensures SortedBy(s[..p] + [x] + s[p..], key, descending)
  {
    forall i | 0 <= i < p ensures InOrder(key(s[i]), key(x), descending) {
      if i < p - 1 { InOrderTransitive(key(s[i]), key(s[p - 1]), key(x), descending); }
    }
    forall j | p <= j < |s| ensures InOrder(key(x), key(s[j]), descending) {
      if p < j { InOrderTransitive(key(x), key(s[p]), key(s[j]), descending); }
    }
  }

  method Insert<T(==)>(s: seq<T>, x: T, key: T -> string, descending: bool) returns (r: seq<T>)
    requires SortedBy(s, key, descending)
    ensures SortedBy(r, key, descending)
    ensures multiset(r) == multiset(s) + multiset{x}
  {
    var p := |s|;
    while p > 0 && !InOrder(key(s[p - 1]), key(x), descending)
      invariant 0 <= p <= |s|
      invariant p < |s| ==> InOrder(key(x), key(s[p]), descending)
    {
      InOrderTotal(key(s[p - 1]), key(x), descending);
      p := p - 1;
    }
    InsertSorted(s, p, x, key, descending);
    assert s == s[..p] + s[p..];
    r := s[..p] + [x] + s[p..];
  }

  /** Stands for sort.Slice and sort.Strings: some ordered arrangement of the same
      elements. Nothing is promised about equal keys. */
  method Sort<T(==)>(s: seq<T>, key: T -> string, descending: bool) returns (r: seq<T>)
    ensures SortedBy(r, key, descending)
    ensures multiset(r) == multiset(s)
  {
    r := [];
    for i := 0 to |s|
      invariant SortedBy(r, key, descending)
      invariant multiset(r) == multiset(s[..i])
    {
      assert s[..i + 1] == s[..i] + [s[i]];
      r := Insert(r, s[i], key, descending);
    }
    assert s[..|s|] == s;
  }

  lemma SameElements<T>(s: seq<T>, t: seq<T>)
    requires multiset(s) == multiset(t)
    ensures |s| == |t| && forall x :: x in s <==> x in t
  {
    assert |multiset(s)| == |s| && |multiset(t)| == |t|;
    assert forall x :: x in s <==> x in multiset(s);
    assert forall x :: x in t <==> x in multiset(t);
  }

  /** Rearranging does not change a sum. */
  lemma {:induction false} SumPermuted<T>(s: seq<T>, t: seq<T>, f: T -> int)
    requires multiset(s) == multiset(t)
    ensures Sum(s, f) == Sum(t, f)
    decreases |s|
  {
    SameElements(s, t);
    if s != [] {
      var init, x := s[..|s| - 1], s[|s| - 1];
      assert s == init + [x];
      assert x in t;
      var k :| 0 <= k < |t| && t[k] == x;
      var rest := t[..k] + t[k + 1..];
      assert t == t[..k] + [x] + t[k + 1..];
      SumConcat(t[..k] + [x], t[k + 1..], f);
      SumAppend(t[..k], x, f);
      SumConcat(t[..k], t[k + 1..], f);
      assert multiset(s) == multiset(init) + multiset{x};
      assert multiset(t) == multiset(t[..k]) + multiset{x} + multiset(t[k + 1..]);
      assert multiset(rest) == multiset(t[..k]) + multiset(t[k + 1..]);
      assert multiset(init) == multiset(s) - multiset{x} && multiset(rest) == multiset(t) - multiset{x};
      SumPermuted(init, rest, f);
    }
  }

  ghost predicate Increasing(s: seq<string>) {
    forall i, j | 0 <= i < j < |s| :: StrLess(s[i], s[j])
  }

  /** A set of strings has one strictly increasing listing. */
  lemma {:induction false} IncreasingUnique(s: seq<string>, t: seq<string>)
    requires Increasing(s) && Increasing(t)
    requires forall x :: x in s <==> x in t
    ensures s == t
    decreases |s|
  {
    if t != [] {
      assert t[0] in t;
    }
    if s != [] {
      assert s[0] in t;
      assert t != [] && t[0] in s;
      var i :| 0 <= i < |t| && t[i] == s[0];
      var j :| 0 <= j < |s| && s[j] == t[0];
      if i > 0 && j > 0 {
        StrTotal(s[0], t[0]);
        assert false;
      }
      assert s[0] == t[0];
      forall x ensures x in s[1..] <==> x in t[1..] {
        TailMembers(s, x);
        TailMembers(t, x);
      }
      IncreasingUnique(s[1..], t[1..]);
      assert s == [s[0]] + s[1..] && t == [t[0]] + t[1..];
    }
  }

  lemma TailMembers(s: seq<string>, x: string)
    requires Increasing(s) && s != []
    ensures x in s[1..] <==> x in s && x != s[0]
  {
    if x in s[1..] {
      var i :| 0 <= i < |s| - 1 && s[1..][i] == x;
      assert s[i + 1] == x;
      StrTotal(s[0], x);
    }
    if x in s && x != s[0] {
      var i :| 0 <= i < |s| && s[i] == x;
      assert s[1..][i - 1] == x;
    }
  }

  const SelfKey: string -> string := (s: string) => s

  lemma {:induction false} IncreasingDistinct(s: seq<string>)
    requires Increasing(s)
    ensures Distinct(s)
  {
    forall i, j | 0 <= i < j < |s| ensures s[i] != s[j] {
      StrTotal(s[i], s[j]);
    }
  }

  /** `for k := range m { labels = append(labels, k) }; sort.Strings(labels)`:
      the keys come in any order, the result is their increasing listing. */
  method SortedKeys(keys: set<string>) returns (labels: seq<string>)
    ensures Increasing(labels)
    ensures forall x :: x in labels <==> x in keys
  {
    var out: seq<string> := [];
    var todo := keys;
    while todo != {}
      invariant todo <= keys
      invariant forall x :: x in out <==> x in keys && x !in todo
      invariant Distinct(out)
      decreases todo
    {
      var k :| k in todo;
      todo := todo - {k};
      out := out + [k];
    }
    labels := Sort(out, SelfKey, false);
    SameElements(labels, out);
    SortedDistinctIncreases(out, labels);
  }

  lemma SortedDistinctIncreases(s: seq<string>, r: seq<string>)
    requires Distinct(s) && multiset(r) == multiset(s) && SortedBy(r, SelfKey, false)
    ensures Increasing(r)
  {
    DistinctPermuted(s, r);
    forall i, j | 0 <= i < j < |r| ensures StrLess(r[i], r[j]) {
      assert InOrder(SelfKey(r[i]), SelfKey(r[j]), false);
      StrTotal(r[i], r[j]);
    }
  }

  lemma DistinctPermuted(s: seq<string>, r: seq<string>)
    requires Distinct(s) && multiset(r) == multiset(s)
    ensures Distinct(r)
  {
    DistinctCounts(s);
    forall i, j | 0 <= i < j < |r| ensures r[i] != r[j] {
      TwoOccurrences(r, i, j);
    }
  }

  lemma TwoOccurrences(r: seq<string>, i: nat, j: nat)
    requires i < j < |r|
    ensures r[i] == r[j] ==> multiset(r)[r[i]] >= 2
  {
    assert r == r[..j] + [r[j]] + r[j + 1..];
    assert r[i] in r[..j] && multiset(r[..j])[r[i]] >= 1;
  }

  lemma {:induction false} DistinctCounts(s: seq<string>)
    requires Distinct(s)
    ensures forall x :: multiset(s)[x] <= 1
  {
    if s != [] {
      var init := s[..|s| - 1];
      DistinctCounts(init);
      assert s == init + [s[|s| - 1]];
      assert s[|s| - 1] !in init;
    }
  }
}
