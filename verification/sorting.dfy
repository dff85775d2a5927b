/** `sorted(events, key=lambda event: event.start)`: a stable ascending sort
    by start instant, modelled as an insertion sort on sequences. */
module Sorting {
  import opened Civil
  import opened Events

  /** The sort key: the start instant. */
  function Key(e: CalendarEvent): Instant {
    ToInstant(e.start)
  }

  predicate SortedByStart(s: seq<CalendarEvent>)
  {
    forall i, j :: 0 <= i < j < |s| ==> Key(s[i]) <= Key(s[j])
  }

  /** The events of `s` starting at instant `k`, in their order in `s`.
      A sort is stable when it keeps every such subsequence. */
  function WithKey(s: seq<CalendarEvent>, k: Instant): seq<CalendarEvent>
  {
    if s == [] then []
    else (if Key(s[0]) == k then [s[0]] else []) + WithKey(s[1..], k)
  }

  /** Putting an event no later than the head of a sorted sequence in front
      keeps it sorted. */
  lemma ConsSorted(x: CalendarEvent, s: seq<CalendarEvent>)
    requires SortedByStart(s)
    requires s != [] ==> Key(x) <= Key(s[0])
    ensures SortedByStart([x] + s)
  {
    var r := [x] + s;
    forall i, j | 0 <= i < j < |r|
      ensures Key(r[i]) <= Key(r[j])
    {
      if i > 0 {
        assert r[i] == s[i - 1] && r[j] == s[j - 1];
      } else {
        assert Key(s[0]) <= Key(s[j - 1]);
      }
    }
  }

  /** Places `e` in front of the first event of `s` that does not start
      earlier, so that it precedes every event with the same start. */
  function Insert(e: CalendarEvent, s: seq<CalendarEvent>): (r: seq<CalendarEvent>)
    requires SortedByStart(s)
    ensures SortedByStart(r)
    ensures multiset(r) == multiset(s) + multiset{e}
    ensures r[0] == e || (s != [] && r[0] == s[0])
  {
    if s == [] || Key(e) <= Key(s[0]) then
      ConsSorted(e, s);
      [e] + s
    else
      var rest := Insert(e, s[1..]);
      assert s == [s[0]] + s[1..];
      ConsSorted(s[0], rest);
      [s[0]] + rest
  }

  function SortByStart(s: seq<CalendarEvent>): (r: seq<CalendarEvent>)
    ensures SortedByStart(r)
    ensures multiset(r) == multiset(s)
  {
    if s == [] then []
    else
      assert s == [s[0]] + s[1..];
      Insert(s[0], SortByStart(s[1..]))
  }

  lemma WithKeyCons(x: CalendarEvent, s: seq<CalendarEvent>, k: Instant)
    ensures WithKey([x] + s, k) == (if Key(x) == k then [x] else []) + WithKey(s, k)
  {
    assert ([x] + s)[1..] == s;
  }

  lemma {:induction false} InsertStable(e: CalendarEvent, s: seq<CalendarEvent>, k: Instant)
    requires SortedByStart(s)
    ensures WithKey(Insert(e, s), k) == (if Key(e) == k then [e] else []) + WithKey(s, k)
  {
    if s == [] || Key(e) <= Key(s[0]) {
      WithKeyCons(e, s, k);
    } else {
      var rest := Insert(e, s[1..]);
      assert Insert(e, s) == [s[0]] + rest;
      InsertStable(e, s[1..], k);
      WithKeyCons(s[0], rest, k);
      WithKeyCons(s[0], s[1..], k);
      assert [s[0]] + s[1..] == s;
      if Key(s[0]) == k {
        // `e` starts later than `s[0]`, so it is not among the events at `k`.
        assert WithKey(rest, k) == WithKey(s[1..], k);
      }
    }
  }

  /** The sort keeps the relative order of events with equal starts. */
  lemma {:induction false} SortStable(s: seq<CalendarEvent>, k: Instant)
    ensures WithKey(SortByStart(s), k) == WithKey(s, k)
  {
    if s != [] {
      SortStable(s[1..], k);
      InsertStable(s[0], SortByStart(s[1..]), k);
    }
  }

  lemma {:induction false} WithKeyEmpty(s: seq<CalendarEvent>, k: Instant)
    ensures WithKey(s, k) == [] <==> forall i :: 0 <= i < |s| ==> Key(s[i]) != k
  {
    if s != [] {
      WithKeyEmpty(s[1..], k);
      assert forall i :: 1 <= i < |s| ==> s[i] == s[1..][i - 1];
    }
  }

  lemma WithKeyHead(s: seq<CalendarEvent>)
    requires s != []
    ensures WithKey(s, Key(s[0])) != []
  {
  }

  /** Sequences with the same equal-start subsequences are both empty or
      both not. */
  lemma SameKeysEmpty(a: seq<CalendarEvent>, b: seq<CalendarEvent>)
    requires forall k :: WithKey(a, k) == WithKey(b, k)
    ensures a == [] <==> b == []
  {
    if a != [] {
      WithKeyHead(a);
      assert WithKey(b, Key(a[0])) != [];
    }
    if b != [] {
      WithKeyHead(b);
      assert WithKey(a, Key(b[0])) != [];
    }
  }

  /** In a sorted sequence the head starts no later than any event. */
  lemma {:induction false} HeadIsEarliest(s: seq<CalendarEvent>, k: Instant)
    requires SortedByStart(s) && s != [] && WithKey(s, k) != []
    ensures Key(s[0]) <= k
  {
    WithKeyEmpty(s, k);
    var j :| 0 <= j < |s| && Key(s[j]) == k;
    assert Key(s[0]) <= Key(s[j]);
  }

  /** Two sorted sequences with the same equal-start subsequences begin with
      the same event: both heads carry the least start. */
  lemma SameKeysHead(a: seq<CalendarEvent>, b: seq<CalendarEvent>)
    requires SortedByStart(a) && SortedByStart(b) && a != [] && b != []
    requires forall k :: WithKey(a, k) == WithKey(b, k)
    ensures a[0] == b[0]
  {
    var ka, kb := Key(a[0]), Key(b[0]);
    WithKeyHead(a);
    WithKeyHead(b);
    assert WithKey(b, ka) == WithKey(a, ka);
    assert WithKey(a, kb) == WithKey(b, kb);
    HeadIsEarliest(b, ka);
    HeadIsEarliest(a, kb);
    assert WithKey(a, ka)[0] == a[0];
    assert WithKey(b, kb)[0] == b[0];
  }

  lemma SameKeyTail(a: seq<CalendarEvent>, b: seq<CalendarEvent>, k: Instant)
    requires a != [] && b != [] && a[0] == b[0]
    requires WithKey(a, k) == WithKey(b, k)
    ensures WithKey(a[1..], k) == WithKey(b[1..], k)
  {
    var head := if Key(a[0]) == k then [a[0]] else [];
    assert WithKey(a, k) == head + WithKey(a[1..], k);
    assert WithKey(b, k) == head + WithKey(b[1..], k);
    assert WithKey(a[1..], k) == WithKey(a, k)[|head|..];
  }

  lemma SameKeysTail(a: seq<CalendarEvent>, b: seq<CalendarEvent>)
    requires a != [] && b != [] && a[0] == b[0]
    requires forall k :: WithKey(a, k) == WithKey(b, k)
    ensures forall k :: WithKey(a[1..], k) == WithKey(b[1..], k)
  {
    forall k
      ensures WithKey(a[1..], k) == WithKey(b[1..], k)
    {
      SameKeyTail(a, b, k);
    }
  }

  /** A sequence is determined by being sorted by start and by its
      subsequences of equal starts: the stable sort is the only sorted
      arrangement that keeps those subsequences. */
  lemma {:induction false} StableSortUnique(a: seq<CalendarEvent>, b: seq<CalendarEvent>)
    requires SortedByStart(a) && SortedByStart(b)
    requires forall k :: WithKey(a, k) == WithKey(b, k)
    ensures a == b
    decreases |a|
  {
    SameKeysEmpty(a, b);
    if a != [] {
      SameKeysHead(a, b);
      SameKeysTail(a, b);
      StableSortUnique(a[1..], b[1..]);
      assert a == [a[0]] + a[1..];
      assert b == [b[0]] + b[1..];
    }
  }

  /** Any sorted sequence that keeps every equal-start subsequence of `s`
      is the result of sorting `s`. */
  lemma StableSortCharacterised(s: seq<CalendarEvent>, r: seq<CalendarEvent>)
    requires SortedByStart(r)
    requires forall k :: WithKey(r, k) == WithKey(s, k)
    ensures r == SortByStart(s)
  {
    forall k
      ensures WithKey(r, k) == WithKey(SortByStart(s), k)
    {
      SortStable(s, k);
    }
    StableSortUnique(r, SortByStart(s));
  }
}
