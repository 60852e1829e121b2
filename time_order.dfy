/**
 * The query result's order: `Array.prototype.sort` with the comparator
 * `(a, b) => new Date(b.timestamp) - new Date(a.timestamp)`, most recent
 * first. The sort is stable; a difference involving an invalid date is NaN,
 * which the sort reads as "equal".
 */
module TimeOrder {
  import opened Wrappers

  /**
   * The sort key `e => new Date(e.timestamp)`: a time value, or None for an
   * invalid date. The query route passes `Dates.TimeOf` with its date parser.
   */
  type TimeKey<!T> = T -> Option<int>

  /** The comparator is positive for (p, x): x is strictly more recent than p, both valid dates. */
  predicate NewerThan<T>(x: T, p: T, key: TimeKey<T>) {
    key(x).Some? && key(p).Some? && key(p).value < key(x).value
  }

  /** Inserts `x` behind the sorted prefix, moving it forward past every strictly older entry. */
  function InsertByTime<T>(sorted: seq<T>, x: T, key: TimeKey<T>): (r: seq<T>)
    ensures |r| == |sorted| + 1
  {
    if sorted == [] then [x]
    else
      var n := |sorted| - 1;
      if NewerThan(x, sorted[n], key) then
        assert sorted == sorted[..n] + [sorted[n]];
        InsertByTime(sorted[..n], x, key) + [sorted[n]]
      else sorted + [x]
  }

  /** The stable sort, as insertion sort from the front: the permutation the query returns. */
  function TimeSorted<T>(s: seq<T>, key: TimeKey<T>): (r: seq<T>)
    ensures |r| == |s|
  {
    if s == [] then []
    else
      var n := |s| - 1;
      assert s == s[..n] + [s[n]];
      InsertByTime(TimeSorted(s[..n], key), s[n], key)
  }

  lemma {:induction false} InsertIsPermutation<T>(sorted: seq<T>, x: T, key: TimeKey<T>)
    ensures multiset(InsertByTime(sorted, x, key)) == multiset(sorted) + multiset{x}
  {
    if sorted != [] {
      var n := |sorted| - 1;
      if NewerThan(x, sorted[n], key) {
        InsertIsPermutation(sorted[..n], x, key);
        SplitLast(sorted);
      }
    }
  }

  /** The result holds exactly the input entries, each as often as it occurs there. */
  lemma {:induction false} TimeSortedIsPermutation<T>(s: seq<T>, key: TimeKey<T>)
    ensures multiset(TimeSorted(s, key)) == multiset(s)
  {
    if s != [] {
      var n := |s| - 1;
      TimeSortedIsPermutation(s[..n], key);
      InsertIsPermutation(TimeSorted(s[..n], key), s[n], key);
      SplitLast(s);
    }
  }

  /** No entry is strictly more recent than the one before it. */
  predicate Settled<T>(s: seq<T>, key: TimeKey<T>) {
    forall i :: 0 < i < |s| ==> !NewerThan(s[i], s[i - 1], key)
  }

  /** Every entry has a valid date. */
  predicate AllTimed<T>(s: seq<T>, key: TimeKey<T>) {
    forall i :: 0 <= i < |s| ==> key(s[i]).Some?
  }

  /** Non-increasing time order over the whole sequence. */
  predicate NewestFirst<T>(s: seq<T>, key: TimeKey<T>) {
    && AllTimed(s, key)
    && forall i, j :: 0 <= i < j < |s| ==> key(s[j]).value <= key(s[i]).value
  }

  lemma {:induction false} InsertKeepsSettled<T>(sorted: seq<T>, x: T, key: TimeKey<T>)
    requires Settled(sorted, key)
    ensures Settled(InsertByTime(sorted, x, key), key)
    ensures InsertByTime(sorted, x, key)[|sorted|] == x
         || (sorted != [] && InsertByTime(sorted, x, key)[|sorted|] == sorted[|sorted| - 1])
  {
    if sorted != [] {
      var n := |sorted| - 1;
      if NewerThan(x, sorted[n], key) {
        var front := sorted[..n];
        InsertKeepsSettled(front, x, key);
        var ins := InsertByTime(front, x, key);
        assert ins[n] == x || (front != [] && ins[n] == front[n - 1]);
        assert InsertByTime(sorted, x, key) == ins + [sorted[n]];
      }
    }
  }

  /** The sort leaves no entry behind a strictly older one. */
  lemma {:induction false} TimeSortedIsSettled<T>(s: seq<T>, key: TimeKey<T>)
    ensures Settled(TimeSorted(s, key), key)
  {
    if s != [] {
      TimeSortedIsSettled(s[..|s| - 1], key);
      InsertKeepsSettled(TimeSorted(s[..|s| - 1], key), s[|s| - 1], key);
    }
  }

  lemma SettledFront<T>(s: seq<T>, key: TimeKey<T>)
    requires s != [] && Settled(s, key)
    ensures Settled(s[..|s| - 1], key)
    ensures |s| > 1 ==> !NewerThan(s[|s| - 1], s[..|s| - 1][|s| - 2], key)
  {
    var front := s[..|s| - 1];
    forall i | 0 < i < |front| ensures !NewerThan(front[i], front[i - 1], key) {
      assert front[i] == s[i] && front[i - 1] == s[i - 1];
    }
  }

  lemma TimeSortedSnoc<T>(s: seq<T>, key: TimeKey<T>)
    requires s != []
    ensures TimeSorted(s, key) == InsertByTime(TimeSorted(s[..|s| - 1], key), s[|s| - 1], key)
  {
  }

  lemma SplitLast<T>(s: seq<T>)
    requires s != []
    ensures s == s[..|s| - 1] + [s[|s| - 1]]
  {
  }

  /** A settled sequence is left as it is. */
  lemma {:induction false} SettledIsFixed<T>(s: seq<T>, key: TimeKey<T>)
    requires Settled(s, key)
    ensures TimeSorted(s, key) == s
  {
    if s != [] {
      var n := |s| - 1;
      var front := s[..n];
      SettledFront(s, key);
      SettledIsFixed(front, key);
      InsertAtEnd(front, s[n], key);
      TimeSortedSnoc(s, key);
      SplitLast(s);
    }
  }

  /** Sorting the result again changes nothing. */
  lemma TimeSortedIdempotent<T>(s: seq<T>, key: TimeKey<T>)
    ensures TimeSorted(TimeSorted(s, key), key) == TimeSorted(s, key)
  {
    TimeSortedIsSettled(s, key);
    SettledIsFixed(TimeSorted(s, key), key);
  }

  lemma {:induction false} SettledTimedIsNewestFirst<T>(s: seq<T>, key: TimeKey<T>)
    requires Settled(s, key) && AllTimed(s, key)
    ensures NewestFirst(s, key)
  {
    if s != [] {
      var n := |s| - 1;
      var front := s[..n];
      assert AllTimed(front, key) by {
        forall i | 0 <= i < |front| ensures key(front[i]).Some? { assert front[i] == s[i]; }
      }
      SettledTimedIsNewestFirst(front, key);
      forall i, j | 0 <= i < j < |s|
        ensures key(s[j]).value <= key(s[i]).value
      {
        assert s[i] in s && s[j] in s;
        if j == n && j > 0 {
          assert s[n - 1] in s;
          assert !NewerThan(s[n], s[n - 1], key);
          if i < n - 1 {
            assert front[i] == s[i] && front[n - 1] == s[n - 1];
          }
        } else {
          assert front[i] == s[i] && front[j] == s[j];
        }
      }
    }
  }

  /** When every timestamp is a valid date the result is in non-increasing time order. */
  lemma TimeSortedIsNewestFirst<T>(s: seq<T>, key: TimeKey<T>)
    requires AllTimed(s, key)
    ensures NewestFirst(TimeSorted(s, key), key)
  {
    var r := TimeSorted(s, key);
    TimeSortedIsPermutation(s, key);
    assert AllTimed(r, key) by {
      forall i | 0 <= i < |r| ensures key(r[i]).Some? {
        assert r[i] in multiset(r);
        assert r[i] in multiset(s);
        var k :| 0 <= k < |s| && s[k] == r[i];
      }
    }
    TimeSortedIsSettled(s, key);
    SettledTimedIsNewestFirst(r, key);
  }

  /** The entries whose time value is `t`, in order. */
  function WithTime<T>(s: seq<T>, t: Option<int>, key: TimeKey<T>): seq<T> {
    if s == [] then []
    else (if key(s[0]) == t then [s[0]] else []) + WithTime(s[1..], t, key)
  }

  lemma {:induction false} WithTimeAppend<T>(a: seq<T>, b: seq<T>, t: Option<int>, key: TimeKey<T>)
    ensures WithTime(a + b, t, key) == WithTime(a, t, key) + WithTime(b, t, key)
  {
    if a != [] {
      var head := if key(a[0]) == t then [a[0]] else [];
      assert (a + b)[0] == a[0];
      assert (a + b)[1..] == a[1..] + b;
      assert WithTime(a + b, t, key) == head + WithTime(a[1..] + b, t, key);
      WithTimeAppend(a[1..], b, t, key);
      assert WithTime(a, t, key) == head + WithTime(a[1..], t, key);
      assert head + (WithTime(a[1..], t, key) + WithTime(b, t, key))
          == (head + WithTime(a[1..], t, key)) + WithTime(b, t, key);
    } else {
      assert a + b == b;
    }
  }

  lemma {:induction false} InsertIsStable<T>(sorted: seq<T>, x: T, t: Option<int>, key: TimeKey<T>)
    ensures WithTime(InsertByTime(sorted, x, key), t, key) == WithTime(sorted + [x], t, key)
  {
    if sorted != [] {
      var n := |sorted| - 1;
      var front, last := sorted[..n], sorted[n];
      if NewerThan(x, last, key) {
        InsertIsStable(front, x, t, key);
        WithTimeAppend(InsertByTime(front, x, key), [last], t, key);
        WithTimeAppend(front, [x], t, key);
        WithTimeAppend(front + [last], [x], t, key);
        WithTimeAppend(front, [last], t, key);
        assert sorted == front + [last];
        assert key(x) != key(last);
      }
    }
  }

  /** Stability: the entries with any one time value (valid or not) keep their relative order. */
  lemma {:induction false} TimeSortedIsStable<T>(s: seq<T>, t: Option<int>, key: TimeKey<T>)
    ensures WithTime(TimeSorted(s, key), t, key) == WithTime(s, t, key)
  {
    if s != [] {
      var n := |s| - 1;
      TimeSortedIsStable(s[..n], t, key);
      InsertIsStable(TimeSorted(s[..n], key), s[n], t, key);
      WithTimeAppend(TimeSorted(s[..n], key), [s[n]], t, key);
      WithTimeAppend(s[..n], [s[n]], t, key);
      assert s == s[..n] + [s[n]];
    }
  }

  lemma NewestFirstTail<T>(a: seq<T>, key: TimeKey<T>)
    requires a != [] && NewestFirst(a, key)
    ensures NewestFirst(a[1..], key)
  {
    forall i | 0 <= i < |a[1..]| ensures key(a[1..][i]).Some? {
      assert a[1..][i] == a[i + 1];
    }
    forall i, j | 0 <= i < j < |a[1..]|
      ensures key(a[1..][j]).value <= key(a[1..][i]).value
    {
      assert a[1..][i] == a[i + 1] && a[1..][j] == a[j + 1];
    }
  }

  /** The first entry of a newest-first sequence is at least as recent as any member. */
  lemma HeadIsNewest<T>(a: seq<T>, e: T, key: TimeKey<T>)
    requires a != [] && NewestFirst(a, key) && e in a
    ensures key(e).value <= key(a[0]).value
  {
    var k :| 0 <= k < |a| && a[k] == e;
    if k > 0 {
      assert key(a[k]).value <= key(a[0]).value;
    }
  }

  lemma SameHeadTime<T>(a: seq<T>, b: seq<T>, key: TimeKey<T>)
    requires a != [] && b != []
    requires multiset(a) == multiset(b)
    requires NewestFirst(a, key) && NewestFirst(b, key)
    ensures key(a[0]) == key(b[0])
  {
    assert a[0] in multiset(b) && b[0] in multiset(a);
    HeadIsNewest(a, b[0], key);
    HeadIsNewest(b, a[0], key);
    assert a[0] in a && b[0] in b;
  }

  lemma SameHeads<T>(a: seq<T>, b: seq<T>, key: TimeKey<T>)
    requires a != [] && b != []
    requires multiset(a) == multiset(b)
    requires NewestFirst(a, key) && NewestFirst(b, key)
    requires WithTime(a, key(a[0]), key) == WithTime(b, key(a[0]), key)
    ensures a[0] == b[0]
  {
    SameHeadTime(a, b, key);
    var t := key(a[0]);
    assert WithTime(a, t, key)[0] == a[0];
    assert WithTime(b, t, key)[0] == b[0];
  }

  lemma WithTimeTail<T>(a: seq<T>, b: seq<T>, t: Option<int>, key: TimeKey<T>)
    requires a != [] && b != [] && a[0] == b[0]
    requires WithTime(a, t, key) == WithTime(b, t, key)
    ensures WithTime(a[1..], t, key) == WithTime(b[1..], t, key)
  {
    var head := if key(a[0]) == t then [a[0]] else [];
    assert WithTime(a, t, key) == head + WithTime(a[1..], t, key);
    assert WithTime(b, t, key) == head + WithTime(b[1..], t, key);
    assert WithTime(a[1..], t, key) == WithTime(a, t, key)[|head|..];
    assert WithTime(b[1..], t, key) == WithTime(b, t, key)[|head|..];
  }

  lemma MultisetTail<T>(a: seq<T>, b: seq<T>)
    requires a != [] && b != [] && a[0] == b[0] && multiset(a) == multiset(b)
    ensures multiset(a[1..]) == multiset(b[1..])
  {
    assert a == [a[0]] + a[1..] && b == [b[0]] + b[1..];
    assert multiset(a[1..]) == multiset(a) - multiset{a[0]};
    assert multiset(b[1..]) == multiset(b) - multiset{b[0]};
  }

  lemma {:induction false} SameOrderIsEqual<T>(a: seq<T>, b: seq<T>, key: TimeKey<T>)
    requires multiset(a) == multiset(b)
    requires NewestFirst(a, key) && NewestFirst(b, key)
    requires forall t :: WithTime(a, t, key) == WithTime(b, t, key)
    ensures a == b
    decreases |a|
  {
    if a == [] {
      assert |multiset(b)| == 0;
    } else {
      assert |b| == |multiset(b)| == |multiset(a)| == |a|;
      SameHeads(a, b, key);
      MultisetTail(a, b);
      forall t ensures WithTime(a[1..], t, key) == WithTime(b[1..], t, key) {
        WithTimeTail(a, b, t, key);
      }
      NewestFirstTail(a, key);
      NewestFirstTail(b, key);
      SameOrderIsEqual(a[1..], b[1..], key);
      assert a == [a[0]] + a[1..] && b == [b[0]] + b[1..];
    }
  }

  /**
   * When every timestamp is a valid date, the order is fully determined:
   * any permutation that is newest first and keeps ties in input order is
   * this one, whichever stable algorithm produced it.
   */
  lemma StableSortIsUnique<T>(s: seq<T>, r: seq<T>, key: TimeKey<T>)
    requires AllTimed(s, key)
    requires multiset(r) == multiset(s)
    requires NewestFirst(r, key)
    requires forall t :: WithTime(r, t, key) == WithTime(s, t, key)
    ensures r == TimeSorted(s, key)
  {
    TimeSortedIsNewestFirst(s, key);
    TimeSortedIsPermutation(s, key);
    forall t ensures WithTime(r, t, key) == WithTime(TimeSorted(s, key), t, key) {
      TimeSortedIsStable(s, t, key);
    }
    SameOrderIsEqual(r, TimeSorted(s, key), key);
  }

  /** `s` backwards. */
  function Reversed<T>(s: seq<T>): (r: seq<T>)
    ensures |r| == |s|
    ensures forall i :: 0 <= i < |s| ==> r[i] == s[|s| - 1 - i]
  {
    if s == [] then [] else [s[|s| - 1]] + Reversed(s[..|s| - 1])
  }

  /** Every entry has a valid date and each is strictly more recent than all before it. */
  predicate OldestFirst<T>(s: seq<T>, key: TimeKey<T>) {
    forall i, j :: 0 <= i < j < |s| ==> NewerThan(s[j], s[i], key)
  }

  /** Entries given strictly oldest first come back exactly reversed. */
  lemma {:induction false} OldestFirstIsReversed<T>(s: seq<T>, key: TimeKey<T>)
    requires OldestFirst(s, key)
    ensures TimeSorted(s, key) == Reversed(s)
  {
    if s != [] {
      var n := |s| - 1;
      var front := s[..n];
      assert OldestFirst(front, key) by {
        forall i, j | 0 <= i < j < |front| ensures NewerThan(front[j], front[i], key) {
          assert front[i] == s[i] && front[j] == s[j];
        }
      }
      OldestFirstIsReversed(front, key);
      var rev := Reversed(front);
      assert forall k :: 0 <= k < |rev| ==> NewerThan(s[n], rev[k], key);
      InsertLandsAt(rev, s[n], 0, key);
      TimeSortedPrefix(s, n, key);
      assert s[..n + 1] == s;
      assert rev[..0] == [] && rev[0..] == rev;
    }
  }

  /** Inserting behind an entry that is not older keeps the sequence and appends. */
  lemma InsertAtEnd<T>(sorted: seq<T>, x: T, key: TimeKey<T>)
    requires sorted == [] || !NewerThan(x, sorted[|sorted| - 1], key)
    ensures InsertByTime(sorted, x, key) == sorted + [x]
  {
  }

  /**
   * Where the insertion lands: behind position `j` when every entry from `j`
   * on is strictly older than `x` and the one before `j` is not.
   */
  lemma {:induction false} InsertLandsAt<T>(sorted: seq<T>, x: T, j: int, key: TimeKey<T>)
    requires 0 <= j <= |sorted|
    requires forall k :: j <= k < |sorted| ==> NewerThan(x, sorted[k], key)
    requires j == 0 || !NewerThan(x, sorted[j - 1], key)
    ensures InsertByTime(sorted, x, key) == sorted[..j] + [x] + sorted[j..]
    decreases |sorted|
  {
    if j == |sorted| {
      InsertAtEnd(sorted, x, key);
      assert sorted[..j] == sorted && sorted[j..] == [];
    } else {
      var n := |sorted| - 1;
      var front := sorted[..n];
      assert NewerThan(x, sorted[n], key);
      assert forall k :: j <= k < |front| ==> front[k] == sorted[k];
      assert j > 0 ==> front[j - 1] == sorted[j - 1];
      InsertLandsAt(front, x, j, key);
      assert front[..j] == sorted[..j];
      assert front[j..] == sorted[j..n];
      assert sorted[j..] == sorted[j..n] + [sorted[n]];
      calc {
        InsertByTime(sorted, x, key);
        InsertByTime(front, x, key) + [sorted[n]];
        (sorted[..j] + [x] + sorted[j..n]) + [sorted[n]];
        sorted[..j] + [x] + (sorted[j..n] + [sorted[n]]);
      }
    }
  }

  /** One pass of the insertion sort: `a[i]` moves forward into the sorted prefix `a[..i]`. */
  method InsertInto<T>(a: array<T>, i: int, key: TimeKey<T>)
    requires 0 <= i < a.Length
    modifies a
    ensures a[..i + 1] == InsertByTime(old(a[..i]), old(a[i]), key)
    ensures a[i + 1..] == old(a[i + 1..])
  {
    ghost var sorted := a[..i];
    var x := a[i];
    var j := i;
    while j > 0 && NewerThan(x, a[j - 1], key)
      invariant 0 <= j <= i
      invariant forall k :: 0 <= k < j ==> a[k] == sorted[k]
      invariant forall k :: j < k <= i ==> a[k] == sorted[k - 1]
      invariant forall k :: i < k < a.Length ==> a[k] == old(a[k])
      invariant forall k :: j <= k < i ==> NewerThan(x, sorted[k], key)
    {
      a[j] := a[j - 1];
      j := j - 1;
    }
    assert j > 0 ==> a[j - 1] == sorted[j - 1];
    InsertLandsAt(sorted, x, j, key);
    a[j] := x;
    assert a[..i + 1] == sorted[..j] + [x] + sorted[j..];
  }

  /** Sorting one more entry inserts it into the sorted prefix. */
  lemma TimeSortedPrefix<T>(s: seq<T>, i: int, key: TimeKey<T>)
    requires 0 <= i < |s|
    ensures TimeSorted(s[..i + 1], key) == InsertByTime(TimeSorted(s[..i], key), s[i], key)
  {
    assert s[..i + 1][..i] == s[..i];
  }

  /**
   * `filteredLogs.sort(...)` in place: an insertion sort that moves each
   * entry forward while the comparator says it belongs before its neighbour.
   */
  method SortByTime<T>(a: array<T>, key: TimeKey<T>)
    modifies a
    ensures a[..] == TimeSorted(old(a[..]), key)
  {
    ghost var input := a[..];
    for i := 0 to a.Length
      invariant a[..i] == TimeSorted(input[..i], key)
      invariant a[i..] == input[i..]
    {
      assert a[i] == input[i];
      InsertInto(a, i, key);
      TimeSortedPrefix(input, i, key);
      assert a[i + 1..] == input[i + 1..];
    }
    assert a[..] == a[..a.Length] && input == input[..a.Length];
  }
}
