/** The events page: exhibitions are split by end date relative to today into
    upcoming (no end date, or ending today or later) ordered by start date,
    and previous (ended before today) ordered by end date, latest first.
    Dates are day numbers. The database leaves the order of equal keys open;
    the model sorts stably, and its contracts promise only what the queries
    promise: the right members, ordered by the key. */
module EventsViews {
  import opened Values

  datatype Exhibition = Exhibition(pk: int, start: int, end: Option<int>)

  /** `Q(end_date__isnull=True) | Q(end_date__gte=today)`. */
  predicate IsUpcoming(e: Exhibition, today: int) {
    e.end.None? || e.end.value >= today
  }

  /** `end_date__lt=today`; a NULL end date never compares. */
  predicate IsPrevious(e: Exhibition, today: int) {
    e.end.Some? && e.end.value < today
  }

  /** The two orderings the page uses: `order_by('start_date')` and
      `order_by('-end_date')`. */
  datatype Ordering = ByStart | LatestEndFirst

  /** The ascending sort key of an ordering; a descending end date is its
      negation. */
  function Key(o: Ordering, e: Exhibition): int {
    match o
    case ByStart => e.start
    case LatestEndFirst => (match e.end case Some(d) => -d case None => 0)
  }

  predicate SortedByKey(s: seq<Exhibition>, key: Ordering) {
    forall i, j :: 0 <= i < j < |s| ==> Key(key, s[i]) <= Key(key, s[j])
  }

  /** Putting an element no larger than any other in front keeps the order. */
  lemma ConsSorted(a: Exhibition, s: seq<Exhibition>, key: Ordering)
    requires SortedByKey(s, key)
    requires forall k :: 0 <= k < |s| ==> Key(key, a) <= Key(key, s[k])
    ensures SortedByKey([a] + s, key)
  {
    var r := [a] + s;
    forall i, j | 0 <= i < j < |r| ensures Key(key, r[i]) <= Key(key, r[j]) {
      assert r[j] == s[j - 1];
      if i > 0 {
        assert r[i] == s[i - 1];
      }
    }
  }

  /** The recursive step of `Insert`: `x` goes after the head `s[0]`, into
      the tail, and the head stays in front. */
  lemma InsertAfterHead(x: Exhibition, s: seq<Exhibition>, rest: seq<Exhibition>, key: Ordering)
    requires |s| > 0 && SortedByKey(s, key) && Key(key, s[0]) < Key(key, x)
    requires SortedByKey(rest, key)
    requires multiset(rest) == multiset(s[1..]) + multiset{x}
    requires forall k :: 0 <= k < |rest| ==> rest[k] == x || rest[k] in s[1..]
    ensures SortedByKey([s[0]] + rest, key)
    ensures multiset([s[0]] + rest) == multiset(s) + multiset{x}
    ensures forall k :: 0 <= k < |[s[0]] + rest| ==> ([s[0]] + rest)[k] == x || ([s[0]] + rest)[k] in s
  {
    var tail := s[1..];
    assert s == [s[0]] + tail;
    forall k | 0 <= k < |rest| ensures Key(key, s[0]) <= Key(key, rest[k]) {
      if rest[k] != x {
        var m :| 0 <= m < |tail| && tail[m] == rest[k];
        assert tail[m] == s[m + 1];
      }
    }
    ConsSorted(s[0], rest, key);
    assert multiset([s[0]] + rest) == multiset{s[0]} + multiset(rest);
    var r := [s[0]] + rest;
    forall k | 0 <= k < |r| ensures r[k] == x || r[k] in s {
      if k > 0 {
        assert r[k] == rest[k - 1];
      }
    }
  }

  /** Insert `x` before the first element with a larger key. */
  function Insert(x: Exhibition, s: seq<Exhibition>, key: Ordering): (r: seq<Exhibition>)
    requires SortedByKey(s, key)
    ensures SortedByKey(r, key)
    ensures multiset(r) == multiset(s) + multiset{x}
    ensures forall k :: 0 <= k < |r| ==> r[k] == x || r[k] in s
    decreases |s|
  {
    if |s| == 0 then [x]
    else if Key(key, x) <= Key(key, s[0]) then
      ConsSorted(x, s, key);
      [x] + s
    else
      assert SortedByKey(s[1..], key);
      var rest := Insert(x, s[1..], key);
      InsertAfterHead(x, s, rest, key);
      [s[0]] + rest
  }

  /** Insertion sort on `key`: a permutation of the input in key order. */
  function SortByKey(s: seq<Exhibition>, key: Ordering): (r: seq<Exhibition>)
    ensures SortedByKey(r, key)
    ensures multiset(r) == multiset(s)
    decreases |s|
  {
    if |s| == 0 then []
    else
      assert s == s[..|s| - 1] + [s[|s| - 1]];
      Insert(s[|s| - 1], SortByKey(s[..|s| - 1], key), key)
  }

  function FilterUpcoming(es: seq<Exhibition>, today: int): (r: seq<Exhibition>)
    ensures forall e :: e in r <==> e in es && IsUpcoming(e, today)
    decreases |es|
  {
    if |es| == 0 then []
    else (if IsUpcoming(es[0], today) then [es[0]] else []) + FilterUpcoming(es[1..], today)
  }

  function FilterPrevious(es: seq<Exhibition>, today: int): (r: seq<Exhibition>)
    ensures forall e :: e in r <==> e in es && IsPrevious(e, today)
    decreases |es|
  {
    if |es| == 0 then []
    else (if IsPrevious(es[0], today) then [es[0]] else []) + FilterPrevious(es[1..], today)
  }

  /** The two filters split the table: together they hold every row once. */
  lemma {:induction false} FiltersPartition(es: seq<Exhibition>, today: int)
    ensures multiset(FilterUpcoming(es, today)) + multiset(FilterPrevious(es, today)) == multiset(es)
    decreases |es|
  {
    if |es| > 0 {
      var e := es[0];
      var u := FilterUpcoming(es[1..], today);
      var p := FilterPrevious(es[1..], today);
      FiltersPartition(es[1..], today);
      assert es == [e] + es[1..];
      assert multiset(es) == multiset{e} + multiset(es[1..]);
      if IsUpcoming(e, today) {
        assert FilterUpcoming(es, today) == [e] + u;
        assert FilterPrevious(es, today) == p;
        assert multiset([e] + u) == multiset{e} + multiset(u);
      } else {
        assert FilterUpcoming(es, today) == u;
        assert FilterPrevious(es, today) == [e] + p;
        assert multiset([e] + p) == multiset{e} + multiset(p);
      }
    }
  }

  lemma SameMembers(a: seq<Exhibition>, b: seq<Exhibition>)
    requires multiset(a) == multiset(b)
    ensures forall e :: e in a <==> e in b
  {
    forall e ensures e in a <==> e in b {
      assert e in a <==> e in multiset(a);
      assert e in b <==> e in multiset(b);
    }
  }

  datatype EventsPage = EventsPage(upcoming: seq<Exhibition>, previous: seq<Exhibition>)

  /** Every exhibition has an end date, latest first. */
  predicate EndsDescending(s: seq<Exhibition>) {
    forall i, j :: 0 <= i < j < |s| ==> s[i].end.Some? && s[j].end.Some? && s[i].end.value >= s[j].end.value
  }

  /** Among ended exhibitions, key order is latest end date first. */
  lemma EndedInKeyOrder(prev: seq<Exhibition>, today: int)
    requires SortedByKey(prev, LatestEndFirst)
    requires forall e :: e in prev ==> IsPrevious(e, today)
    ensures EndsDescending(prev)
  {
    forall i, j | 0 <= i < j < |prev|
      ensures prev[i].end.Some? && prev[j].end.Some? && prev[i].end.value >= prev[j].end.value
    {
      assert prev[i] in prev && prev[j] in prev;
      assert IsPrevious(prev[i], today) && IsPrevious(prev[j], today);
      assert Key(LatestEndFirst, prev[i]) == -prev[i].end.value;
      assert Key(LatestEndFirst, prev[j]) == -prev[j].end.value;
      assert Key(LatestEndFirst, prev[i]) <= Key(LatestEndFirst, prev[j]);
    }
  }

  lemma StartInKeyOrder(up: seq<Exhibition>)
    requires SortedByKey(up, ByStart)
    ensures forall i, j :: 0 <= i < j < |up| ==> up[i].start <= up[j].start
  {
    forall i, j | 0 <= i < j < |up| ensures up[i].start <= up[j].start {
      assert Key(ByStart, up[i]) <= Key(ByStart, up[j]);
    }
  }

  /** The `index` view's two lists. */
  function Index(es: seq<Exhibition>, today: int): (page: EventsPage)
    ensures forall e :: e in page.upcoming <==> e in es && IsUpcoming(e, today)
    ensures forall e :: e in page.previous <==> e in es && IsPrevious(e, today)
    ensures forall i, j :: 0 <= i < j < |page.upcoming| ==> page.upcoming[i].start <= page.upcoming[j].start
    ensures EndsDescending(page.previous)
    ensures multiset(page.upcoming) + multiset(page.previous) == multiset(es)
  {
    var fu := FilterUpcoming(es, today);
    var fp := FilterPrevious(es, today);
    var up := SortByKey(fu, ByStart);
    var prev := SortByKey(fp, LatestEndFirst);
    SameMembers(up, fu);
    SameMembers(prev, fp);
    FiltersPartition(es, today);
    EndedInKeyOrder(prev, today);
    StartInKeyOrder(up);
    EventsPage(up, prev)
  }

  /** Every exhibition lands in exactly one of the two lists. */
  lemma ExactlyOneList(es: seq<Exhibition>, today: int, e: Exhibition)
    requires e in es
    ensures (e in Index(es, today).upcoming) != (e in Index(es, today).previous)
  {
  }

  /** An exhibition whose last day is today is still upcoming. */
  lemma EndingTodayIsUpcoming(es: seq<Exhibition>, today: int, e: Exhibition)
    requires e in es && e.end == Some(today)
    ensures e in Index(es, today).upcoming
    ensures e !in Index(es, today).previous
  {
  }
}
