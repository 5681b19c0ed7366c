/** Timestamps are strings and every date test compares strings. */
module Dates {
  import opened Ordering
  import opened Records

  function DateKey(timestamp: string): string {
    if |timestamp| >= 10 then timestamp[..10] else timestamp
  }

  predicate WithinDateRange(date: string, from: string, upto: string) {
    && date != ""
    && !(from != "" && StrLess(date, from))
    && !(upto != "" && StrLess(upto, date))
  }

  // ---- day windows ----------------------------------------------------------------

  lemma {:induction false} PrefixMonotone(a: string, b: string, n: nat)
    requires StrLeq(a, b)
    ensures StrLeq(if |a| >= n then a[..n] else a, if |b| >= n then b[..n] else b)
    decreases n
  {
    if n != 0 && a != "" && b != "" && a[0] == b[0] {
      PrefixMonotone(a[1..], b[1..], n - 1);
      assert |a| >= n ==> a[..n][1..] == a[1..][..n - 1];
      assert |b| >= n ==> b[..n][1..] == b[1..][..n - 1];
    }
  }

  /** Later timestamps never fall on earlier days. */
  lemma DateKeyMonotone(a: string, b: string)
    requires StrLeq(a, b)
    ensures StrLeq(DateKey(a), DateKey(b))
  {
    PrefixMonotone(a, b, 10);
  }

  /** Splitting a window between two days splits what it shows: a date lies in the
      whole window exactly when it lies in one of the halves, and never in both.
      `last` and `first` are neighbouring days: no date in question lies between. */
  lemma WindowSplits(date: string, from: string, upto: string, last: string, first: string)
    requires last != "" && first != "" && StrLess(last, first)
    requires StrLeq(date, last) || StrLeq(first, date)
    requires from == "" || StrLeq(from, last)
    requires upto == "" || StrLeq(first, upto)
    ensures WithinDateRange(date, from, upto)
        <==> WithinDateRange(date, from, last) || WithinDateRange(date, first, upto)
    ensures !(WithinDateRange(date, from, last) && WithinDateRange(date, first, upto))
  {
    StrTotal(last, first);
    if StrLeq(date, last) {
      LeqTransitive(date, last, first);
      if upto != "" { LeqTransitive(date, first, upto); }
      if StrLeq(first, date) { LeqTransitive(first, date, last); }
    } else {
      if from != "" { LeqTransitive(last, first, date); LeqTransitive(from, last, date); }
    }
  }

  // ---- fixed-width stamps --------------------------------------------------------------

  datatype Clock = Clock(year: nat, month: nat, day: nat, hour: nat, minute: nat, second: nat)

  /** `w` decimal digits, zero-padded. */
  function Pad(n: nat, w: nat): (s: string)
    ensures |s| == w
  {
    if w == 0 then "" else Pad(n / 10, w - 1) + [Digit(n % 10)]
  }

  predicate Fits(c: Clock) {
    c.year < 10000 && c.month < 100 && c.day < 100 && c.hour < 100 && c.minute < 100 && c.second < 100
  }

  function Day(c: Clock): string { Pad(c.year, 4) + "-" + Pad(c.month, 2) + "-" + Pad(c.day, 2) }

  function TimeOfDay(c: Clock): string { Pad(c.hour, 2) + ":" + Pad(c.minute, 2) + ":" + Pad(c.second, 2) }

  /** The layout `NowTimestamp` writes: "2006-01-02T15:04:05Z". */
  function Stamp(c: Clock): string { Day(c) + "T" + TimeOfDay(c) + "Z" }

  /** The layout of the seeded rows: "2006-01-02 15:04:05". */
  function SeedStamp(c: Clock): string { Day(c) + " " + TimeOfDay(c) }

  predicate DayBefore(a: Clock, b: Clock) {
    a.year < b.year || (a.year == b.year && (a.month < b.month || (a.month == b.month && a.day < b.day)))
  }

  predicate SameDay(a: Clock, b: Clock) { a.year == b.year && a.month == b.month && a.day == b.day }

  predicate TimeBefore(a: Clock, b: Clock) {
    a.hour < b.hour || (a.hour == b.hour && (a.minute < b.minute || (a.minute == b.minute && a.second < b.second)))
  }

  predicate Before(a: Clock, b: Clock) { DayBefore(a, b) || (SameDay(a, b) && TimeBefore(a, b)) }

  function Pow10(w: nat): nat { if w == 0 then 1 else 10 * Pow10(w - 1) }

  /** Strings with heads of equal length compare head first. */
  lemma {:induction false} CompareHeadFirst(p: string, q: string, a: string, b: string)
    requires |p| == |q|
    ensures StrLess(p + a, q + b) <==> StrLess(p, q) || (p == q && StrLess(a, b))
  {
    if p == "" {
      assert p + a == a && q + b == b;
    } else {
      assert (p + a)[1..] == p[1..] + a && (q + b)[1..] == q[1..] + b;
      CompareHeadFirst(p[1..], q[1..], a, b);
      assert p == [p[0]] + p[1..] && q == [q[0]] + q[1..];
    }
  }

  /** `p` and `q` stand for the numbers `m` and `n` in one field of a stamp. */
  ghost predicate Encodes(p: string, q: string, m: nat, n: nat) {
    |p| == |q| && (StrLess(p, q) <==> m < n) && (p == q <==> m == n)
  }

  /** Zero-padded numbers of one width compare like the numbers. */
  lemma {:induction false} PadOrder(m: nat, n: nat, w: nat)
    requires m < Pow10(w) && n < Pow10(w)
    ensures Encodes(Pad(m, w), Pad(n, w), m, n)
  {
    if w > 0 {
      PadOrder(m / 10, n / 10, w - 1);
      CompareHeadFirst(Pad(m / 10, w - 1), Pad(n / 10, w - 1), [Digit(m % 10)], [Digit(n % 10)]);
      assert Pad(m, w)[..w - 1] == Pad(m / 10, w - 1) && Pad(n, w)[..w - 1] == Pad(n / 10, w - 1);
      assert Pad(m, w)[w - 1] == Digit(m % 10) && Pad(n, w)[w - 1] == Digit(n % 10);
      OneCharOrder(Digit(m % 10), Digit(n % 10));
    }
  }

  lemma OneCharOrder(c: char, d: char)
    ensures StrLess([c], [d]) <==> c < d
  {
  }

  /** Three fields with a separator compare field by field. */
  lemma TripleOrder(p: seq<string>, q: seq<string>, m: seq<nat>, n: seq<nat>, sep: string)
    requires |p| == |q| == |m| == |n| == 3
    requires forall i | 0 <= i < 3 :: Encodes(p[i], q[i], m[i], n[i])
    ensures
      var s, t := p[0] + sep + p[1] + sep + p[2], q[0] + sep + q[1] + sep + q[2];
      && (StrLess(s, t) <==> m[0] < n[0] || (m[0] == n[0] && (m[1] < n[1] || (m[1] == n[1] && m[2] < n[2]))))
      && (s == t <==> m == n)
  {
    var x, y := p[1] + sep + p[2], q[1] + sep + q[2];
    PairOrder(p[1], p[2], q[1], q[2], sep);
    PairOrder(p[0], x, q[0], y, sep);
    assert p[0] + sep + p[1] + sep + p[2] == p[0] + sep + x && q[0] + sep + q[1] + sep + q[2] == q[0] + sep + y;
    assert Encodes(p[0], q[0], m[0], n[0]) && Encodes(p[1], q[1], m[1], n[1]) && Encodes(p[2], q[2], m[2], n[2]);
  }

  lemma PairOrder(p: string, a: string, q: string, b: string, sep: string)
    requires |p| == |q|
    ensures StrLess(p + sep + a, q + sep + b) <==> StrLess(p, q) || (p == q && StrLess(a, b))
    ensures p + sep + a == q + sep + b <==> p == q && a == b
  {
    assert p + sep + a == p + (sep + a) && q + sep + b == q + (sep + b);
    CompareHeadFirst(p, q, sep + a, sep + b);
    CompareHeadFirst(sep, sep, a, b);
    StrTotal(sep, sep);
    if p + sep + a == q + sep + b {
      assert (p + (sep + a))[..|p|] == p && (q + (sep + b))[..|q|] == q;
      assert (p + sep + a)[|p| + |sep|..] == a && (q + sep + b)[|q| + |sep|..] == b;
    }
  }

  lemma PowersOfTen()
    ensures Pow10(2) == 100 && Pow10(4) == 10000
  {
    assert Pow10(1) == 10 && Pow10(2) == 100 && Pow10(3) == 1000;
  }

  lemma DayOrder(a: Clock, b: Clock)
    requires Fits(a) && Fits(b)
    ensures StrLess(Day(a), Day(b)) <==> DayBefore(a, b)
    ensures Day(a) == Day(b) <==> SameDay(a, b)
  {
    PowersOfTen();
    PadOrder(a.year, b.year, 4);
    PadOrder(a.month, b.month, 2);
    PadOrder(a.day, b.day, 2);
    TripleOrder([Pad(a.year, 4), Pad(a.month, 2), Pad(a.day, 2)], [Pad(b.year, 4), Pad(b.month, 2), Pad(b.day, 2)],
                [a.year, a.month, a.day], [b.year, b.month, b.day], "-");
  }

  lemma TimeOrder(a: Clock, b: Clock)
    requires Fits(a) && Fits(b)
    ensures StrLess(TimeOfDay(a), TimeOfDay(b)) <==> TimeBefore(a, b)
  {
    PowersOfTen();
    PadOrder(a.hour, b.hour, 2);
    PadOrder(a.minute, b.minute, 2);
    PadOrder(a.second, b.second, 2);
    TripleOrder([Pad(a.hour, 2), Pad(a.minute, 2), Pad(a.second, 2)],
                [Pad(b.hour, 2), Pad(b.minute, 2), Pad(b.second, 2)],
                [a.hour, a.minute, a.second], [b.hour, b.minute, b.second], ":");
  }

  /** STRING ORDER IS CHRONOLOGICAL ORDER on the stamps the service writes, and the
      date key is the calendar day: sorting them as strings lists latest first. */
  lemma StampOrder(a: Clock, b: Clock)
    requires Fits(a) && Fits(b)
    ensures StrLess(Stamp(a), Stamp(b)) <==> Before(a, b)
    ensures DateKey(Stamp(a)) == Day(a)
  {
    DayOrder(a, b);
    TimeOrder(a, b);
    var x, y := TimeOfDay(a) + "Z", TimeOfDay(b) + "Z";
    assert Stamp(a) == Day(a) + "T" + x && Stamp(b) == Day(b) + "T" + y;
    PairOrder(Day(a), x, Day(b), y, "T");
    CompareHeadFirst(TimeOfDay(a), TimeOfDay(b), "Z", "Z");
    assert Stamp(a)[..10] == Day(a);
  }

  /** Between a seeded row and a row written later the string order is chronological
      exactly when they are not of one day with the seeded one no earlier: the two
      layouts differ in the character after the date, so on one day the seeded row
      always sorts as the earlier. */
  lemma MixedStampOrder(seeded: Clock, written: Clock)
    requires Fits(seeded) && Fits(written)
    ensures StrLess(SeedStamp(seeded), Stamp(written)) <==> DayBefore(seeded, written) || SameDay(seeded, written)
    ensures (StrLess(SeedStamp(seeded), Stamp(written)) <==> Before(seeded, written))
       <==> !(SameDay(seeded, written) && !TimeBefore(seeded, written))
  {
    DayOrder(seeded, written);
    var x, y := " " + TimeOfDay(seeded), "T" + (TimeOfDay(written) + "Z");
    assert SeedStamp(seeded) == Day(seeded) + x && Stamp(written) == Day(written) + y;
    CompareHeadFirst(Day(seeded), Day(written), x, y);
    assert x[0] == ' ' && y[0] == 'T';
  }

  /** The two layouts, position by position; they differ after the date only. */
  lemma LayoutsAre(c: Clock)
    ensures
      var s := Stamp(c);
      && |s| == 20 && s[4] == '-' && s[7] == '-' && s[10] == 'T' && s[13] == ':' && s[16] == ':' && s[19] == 'Z'
      && s[..4] == Pad(c.year, 4) && s[5..7] == Pad(c.month, 2) && s[8..10] == Pad(c.day, 2)
      && s[11..13] == Pad(c.hour, 2) && s[14..16] == Pad(c.minute, 2) && s[17..19] == Pad(c.second, 2)
    ensures SeedStamp(c) == Stamp(c)[..10] + " " + Stamp(c)[11..19]
  {
  }

  /** Two digits in base ten. */
  lemma TwoDigits(n: nat, s: string)
    requires n < 100 && s == ["0123456789"[n / 10], "0123456789"[n % 10]]
    ensures Pad(n, 2) == s
  {
    assert Pad(n / 10, 1) == Pad(0, 0) + [Digit(n / 10)];
  }

  /** LATEST FIRST: rows stamped by the service are in descending string order exactly when
      no row is followed by a later one. */
  lemma DescendingStampsAreLatestFirst(stamps: seq<string>, clocks: seq<Clock>)
    requires |stamps| == |clocks|
    requires forall i | 0 <= i < |clocks| :: Fits(clocks[i]) && stamps[i] == Stamp(clocks[i])
    ensures SortedBy(stamps, SelfKey, true) <==> forall i, j | 0 <= i < j < |clocks| :: !Before(clocks[i], clocks[j])
  {
    forall i, j | 0 <= i < j < |clocks|
      ensures InOrder(SelfKey(stamps[i]), SelfKey(stamps[j]), true) <==> !Before(clocks[i], clocks[j])
    {
      StampOrder(clocks[i], clocks[j]);
      StrTotal(stamps[i], stamps[j]);
    }
  }

  // ---- neighbouring days -------------------------------------------------------------------

  predicate IsLeap(year: nat) { (year % 4 == 0 && year % 100 != 0) || year % 400 == 0 }

  function DaysIn(year: nat, month: nat): nat {
    if month == 2 then (if IsLeap(year) then 29 else 28)
    else if month in {4, 6, 9, 11} then 30
    else 31
  }

  /** A date of the calendar. */
  predicate Real(c: Clock) { Fits(c) && 1 <= c.month <= 12 && 1 <= c.day <= DaysIn(c.year, c.month) }

  /** `b` is on the day after `a`. */
  predicate NextDay(a: Clock, b: Clock) {
    if a.day < DaysIn(a.year, a.month) then b.year == a.year && b.month == a.month && b.day == a.day + 1
    else if a.month < 12 then b.year == a.year && b.month == a.month + 1 && b.day == 1
    else b.year == a.year + 1 && b.month == 1 && b.day == 1
  }

  /** A row stamped in either layout at a date of the calendar. */
  ghost predicate Dated(stamp: string) {
    exists c :: Real(c) && (stamp == Stamp(c) || stamp == SeedStamp(c))
  }

  /** The two dates are neighbours in the text of every row. */
  predicate Outside(stamp: string, last: string, first: string) {
    StrLeq(DateKey(stamp), last) || StrLeq(first, DateKey(stamp))
  }

  lemma NoDayBetween(a: Clock, b: Clock, c: Clock)
    requires Real(a) && Real(b) && Real(c) && NextDay(a, b)
    ensures DayBefore(a, b)
    ensures !DayBefore(a, c) || !DayBefore(c, b)
  {
  }

  /** CALENDAR NEIGHBOURS: no row stamped at a date of the calendar falls between a day and the
      next. */
  lemma NoRowBetweenNeighbours(a: Clock, b: Clock, c: Clock)
    requires Real(a) && Real(b) && Real(c) && NextDay(a, b)
    ensures StrLess(Day(a), Day(b))
    ensures Outside(Stamp(c), Day(a), Day(b)) && Outside(SeedStamp(c), Day(a), Day(b))
  {
    NoDayBetween(a, b, c);
    DayOrder(a, b);
    DayOrder(a, c);
    DayOrder(c, b);
    assert |Day(c)| == 10 && DateKey(Stamp(c)) == Day(c) == DateKey(SeedStamp(c));
    StrTotal(Day(a), Day(c));
    StrTotal(Day(c), Day(b));
  }

  lemma DatedOutside(a: Clock, b: Clock, stamp: string)
    requires Real(a) && Real(b) && NextDay(a, b) && Dated(stamp)
    ensures Outside(stamp, Day(a), Day(b))
  {
    var c :| Real(c) && (stamp == Stamp(c) || stamp == SeedStamp(c));
    NoRowBetweenNeighbours(a, b, c);
  }
}
