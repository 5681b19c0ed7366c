/** Weighted sums over sequences, and first-match lookup: the two shapes every
    loop of the repositories and of the dashboard reduces to. */
module Sums {
  import opened Models

  ghost function Sum<T>(s: seq<T>, f: T -> int): int {
    if s == [] then 0 else Sum(s[..|s| - 1], f) + f(s[|s| - 1])
  }

  lemma SumAppend<T>(s: seq<T>, x: T, f: T -> int)
    ensures Sum(s + [x], f) == Sum(s, f) + f(x)
  {
    assert (s + [x])[..|s|] == s;
  }

  lemma {:induction false} SumConcat<T>(s: seq<T>, t: seq<T>, f: T -> int)
    ensures Sum(s + t, f) == Sum(s, f) + Sum(t, f)
  {
    if t == [] {
      assert s + t == s;
    } else {
      SumConcat(s, t[..|t| - 1], f);
      assert (s + t)[..|s + t| - 1] == s + t[..|t| - 1];
    }
  }

  lemma {:induction false} SumUpdate<T>(s: seq<T>, i: nat, x: T, f: T -> int)
    requires i < |s|
    ensures Sum(s[i := x], f) == Sum(s, f) - f(s[i]) + f(x)
  {
    var last := |s| - 1;
    if i == last {
      assert s[i := x][..last] == s[..last];
    } else {
      SumUpdate(s[..last], i, x, f);
      assert s[i := x][..last] == s[..last][i := x];
    }
  }

  lemma {:induction false} SumMonotone<T>(s: seq<T>, f: T -> int, g: T -> int)
    requires forall x | x in s :: f(x) <= g(x)
    ensures Sum(s, f) <= Sum(s, g)
  {
    if s != [] {
      SumMonotone(s[..|s| - 1], f, g);
    }
  }

  lemma SumCongruent<T>(s: seq<T>, f: T -> int, g: T -> int)
    requires forall x | x in s :: f(x) == g(x)
    ensures Sum(s, f) == Sum(s, g)
  {
    SumMonotone(s, f, g);
    SumMonotone(s, g, f);
  }

  lemma {:induction false} SumPlus<T>(s: seq<T>, f: T -> int, g: T -> int, h: T -> int)
    requires forall x | x in s :: h(x) == f(x) + g(x)
    ensures Sum(s, h) == Sum(s, f) + Sum(s, g)
  {
    if s != [] {
      SumPlus(s[..|s| - 1], f, g, h);
    }
  }

  lemma {:induction false} SumZero<T>(s: seq<T>, f: T -> int)
    requires forall x | x in s :: f(x) == 0
    ensures Sum(s, f) == 0
  {
    if s != [] {
      SumZero(s[..|s| - 1], f);
    }
  }

  lemma SumNonNegative<T>(s: seq<T>, f: T -> int)
    requires forall x | x in s :: 0 <= f(x)
    ensures 0 <= Sum(s, f)
  {
    SumMonotone(s, (x: T) => 0, f);
    SumZero(s, (x: T) => 0);
  }

  /** A non-negative sum dominates each of its terms. */
  lemma {:induction false} SumDominates<T>(s: seq<T>, i: nat, f: T -> int)
    requires i < |s|
    requires forall x | x in s :: 0 <= f(x)
    ensures f(s[i]) <= Sum(s, f)
  {
    if i == |s| - 1 {
      SumNonNegative(s[..i], f);
    } else {
      SumDominates(s[..|s| - 1], i, f);
    }
  }

  // ---- splitting a sum by key -------------------------------------------

  ghost predicate Distinct<K(!new)>(ks: seq<K>) {
    forall i, j | 0 <= i < j < |ks| :: ks[i] != ks[j]
  }

  /** The part of weight `w` that falls on key `k`. */
  ghost function At<T, K>(key: T -> K, w: T -> int, k: K): T -> int {
    (x: T) => if key(x) == k then w(x) else 0
  }

  ghost function Bucket<T, K>(s: seq<T>, key: T -> K, w: T -> int): K -> int {
    (k: K) => Sum(s, At(key, w, k))
  }

  ghost function OneHot<K>(at: K, v: int): K -> int {
    (k: K) => if at == k then v else 0
  }

  lemma {:induction false} SumOneHot<K(!new)>(ks: seq<K>, at: K, v: int)
    requires Distinct(ks)
    ensures Sum(ks, OneHot(at, v)) == if at in ks then v else 0
  {
    if ks != [] {
      var last := |ks| - 1;
      SumOneHot(ks[..last], at, v);
      assert ks == ks[..last] + [ks[last]];
    }
  }

  /** Summing bucket by bucket over distinct keys loses nothing and counts
      nothing twice, provided every element that weighs something has its key listed. */
  lemma {:induction false} SumByKey<T(!new), K(!new)>(s: seq<T>, ks: seq<K>, key: T -> K, w: T -> int)
    requires Distinct(ks)
    requires forall x | x in s && w(x) != 0 :: key(x) in ks
    ensures Sum(ks, Bucket(s, key, w)) == Sum(s, w)
  {
    if s == [] {
      SumZero(ks, Bucket(s, key, w));
    } else {
      var init, x := s[..|s| - 1], s[|s| - 1];
      SumByKey(init, ks, key, w);
      SumOneHot(ks, key(x), w(x));
      SumPlus(ks, Bucket(init, key, w), OneHot(key(x), w(x)), Bucket(s, key, w));
    }
  }

  // ---- first match by key ------------------------------------------------

  /** The index of the first element with that key, or the length if there is none. */
  function IndexBy<T>(s: seq<T>, key: T -> string, id: string): (k: nat)
    ensures k <= |s|
    ensures k < |s| ==> key(s[k]) == id
  {
    if s == [] then 0 else if key(s[0]) == id then 0 else 1 + IndexBy(s[1..], key, id)
  }

  lemma IndexByIsFirst<T>(s: seq<T>, key: T -> string, id: string, k: nat)
    ensures k == IndexBy(s, key, id)
       <==> k <= |s| && (forall j | 0 <= j < k :: key(s[j]) != id) && (k < |s| ==> key(s[k]) == id)
  {
    if s != [] && key(s[0]) != id && 0 < k {
      IndexByIsFirst(s[1..], key, id, k - 1);
      assert forall j | 1 <= j < k <= |s| :: s[j] == s[1..][j - 1];
      assert forall j | 0 <= j < k - 1 < |s| :: s[1..][j] == s[j + 1];
    }
  }

  function Find<T>(s: seq<T>, key: T -> string, id: string): (r: Option<T>)
    ensures r.Some? ==> r.value in s && key(r.value) == id
  {
    var k := IndexBy(s, key, id);
    if k < |s| then Some(s[k]) else None
  }

  lemma FindNone<T>(s: seq<T>, key: T -> string, id: string)
    ensures Find(s, key, id).None? <==> forall x | x in s :: key(x) != id
  {
    var k := IndexBy(s, key, id);
    IndexByIsFirst(s, key, id, k);
    if k < |s| {
      assert s[k] in s;
    }
  }

  /** A lookup that hits keeps hitting the same index when rows are appended
      or rewritten without touching keys. */
  lemma IndexStable<T>(s: seq<T>, t: seq<T>, key: T -> string, id: string)
    requires |s| <= |t|
    requires forall i | 0 <= i < |s| :: key(t[i]) == key(s[i])
    requires IndexBy(s, key, id) < |s|
    ensures IndexBy(t, key, id) == IndexBy(s, key, id)
  {
    var k := IndexBy(s, key, id);
    IndexByIsFirst(s, key, id, k);
    IndexByIsFirst(t, key, id, k);
  }

  lemma FindStable<T>(s: seq<T>, t: seq<T>, key: T -> string, id: string)
    requires s <= t && Find(s, key, id).Some?
    ensures Find(t, key, id) == Find(s, key, id)
  {
    IndexStable(s, t, key, id);
  }

  lemma FindUnique<T>(s: seq<T>, key: T -> string, i: nat)
    requires i < |s|
    requires forall a, b | 0 <= a < b < |s| :: key(s[a]) != key(s[b])
    ensures IndexBy(s, key, key(s[i])) == i && Find(s, key, key(s[i])) == Some(s[i])
  {
    IndexByIsFirst(s, key, key(s[i]), i);
  }
}
