/** The high-score list update of `recordScore` in src/Games/Sudoku/Sudoku.js: the
    new entry is appended, the list is sorted by ascending time and cut to its
    first five entries. Reading and writing the stored lists is left to the
    caller. */
module Scores {
  /** One entry `{name, time}` of a difficulty's list; time in seconds. */
  datatype Score = Score(name: string, time: int)

  /** The fastest entries come first. */
  predicate SortedByTime(s: seq<Score>) {
    forall i, j :: 0 <= i < j < |s| ==> s[i].time <= s[j].time
  }

  /** e placed after every entry of s that is at least as fast, ahead of every slower
      one; on equal times the entries already in s stay first. */
  function Insert(s: seq<Score>, e: Score): (t: seq<Score>)
    ensures |t| == |s| + 1
    ensures multiset(t) == multiset(s) + multiset{e}
  {
    if s == [] then [e]
    else if e.time < s[0].time then [e] + s
    else
      assert s == [s[0]] + s[1..];
      [s[0]] + Insert(s[1..], e)
  }

  /** Inserting into a sorted list keeps it sorted. */
  lemma {:induction false} InsertSorted(s: seq<Score>, e: Score)
    requires SortedByTime(s)
    ensures SortedByTime(Insert(s, e))
  {
    if s != [] && s[0].time <= e.time {
      var rest := Insert(s[1..], e);
      assert SortedByTime(s[1..]);
      InsertSorted(s[1..], e);
      forall k | 0 <= k < |rest| ensures s[0].time <= rest[k].time {
        assert rest[k] in multiset(s[1..]) + multiset{e};
      }
      ConsSorted(s[0], rest);
    }
  }

  lemma ConsSorted(x: Score, s: seq<Score>)
    requires SortedByTime(s) && forall k :: 0 <= k < |s| ==> x.time <= s[k].time
    ensures SortedByTime([x] + s)
  {
    var t := [x] + s;
    forall i, j | 0 <= i < j < |t| ensures t[i].time <= t[j].time {
      assert t[j] == s[j - 1];
      if i > 0 {
        assert t[i] == s[i - 1];
      }
    }
  }

  /** The stable sort `[...].sort((a, b) => a.time - b.time)`: each entry, in list
      order, is inserted behind the entries before it that are at least as fast, so
      entries with equal times keep their order, as a stable sort must. */
  function SortByTime(s: seq<Score>): (t: seq<Score>)
    decreases |s|
    ensures multiset(t) == multiset(s)
    ensures SortedByTime(t)
    ensures forall x :: WithTime(t, x) == WithTime(s, x)
  {
    if s == [] then []
    else
      var p, e := s[..|s| - 1], s[|s| - 1];
      assert s == p + [e];
      InsertSorted(SortByTime(p), e);
      forall x ensures WithTime(Insert(SortByTime(p), e), x) == WithTime(s, x) {
        InsertStable(SortByTime(p), e, x);
        WithTimeConcat(p, [e], x);
      }
      Insert(SortByTime(p), e)
  }

  /** The entries of s with time x, in the order s holds them. A sort is stable
      when it keeps this subsequence for every time. */
  function WithTime(s: seq<Score>, x: int): seq<Score> {
    if s == [] then []
    else (if s[0].time == x then [s[0]] else []) + WithTime(s[1..], x)
  }

  lemma {:induction false} WithTimeConcat(a: seq<Score>, b: seq<Score>, x: int)
    ensures WithTime(a + b, x) == WithTime(a, x) + WithTime(b, x)
  {
    if a != [] {
      WithTimeConcat(a[1..], b, x);
      assert (a + b)[0] == a[0] && (a + b)[1..] == a[1..] + b;
    } else {
      assert a + b == b;
    }
  }

  /** No entry of s has time x. */
  lemma {:induction false} WithTimeNone(s: seq<Score>, x: int)
    requires forall i :: 0 <= i < |s| ==> s[i].time != x
    ensures WithTime(s, x) == []
  {
    if s != [] {
      WithTimeNone(s[1..], x);
    }
  }

  /** Inserting into a sorted list puts e behind every entry of equal time: for
      every time, the entries of that time keep their order and e comes last. */
  lemma {:induction false} InsertStable(s: seq<Score>, e: Score, x: int)
    requires SortedByTime(s)
    ensures WithTime(Insert(s, e), x) == WithTime(s, x) + WithTime([e], x)
  {
    if s == [] {
    } else if e.time < s[0].time {
      AheadOfSorted(s, e, x);
    } else {
      var t := s[1..];
      assert SortedByTime(t);
      InsertStable(t, e, x);
      assert Insert(s, e) == [s[0]] + Insert(t, e);
      WithTimeConcat([s[0]], Insert(t, e), x);
      WithTimeConcat([s[0]], t, x);
      assert [s[0]] + t == s;
    }
  }

  /** An entry faster than the head of a sorted list has a time no entry of the
      list has. */
  lemma AheadOfSorted(s: seq<Score>, e: Score, x: int)
    requires SortedByTime(s) && s != [] && e.time < s[0].time
    ensures WithTime([e] + s, x) == WithTime(s, x) + WithTime([e], x)
  {
    WithTimeConcat([e], s, x);
    if e.time == x {
      assert forall i :: 0 <= i < |s| ==> s[0].time <= s[i].time;
      WithTimeNone(s, x);
    }
  }

  /** `s[diff] = [...s[diff], {name, time}].sort(...).slice(0, 5)`. */
  function RecordScore(list: seq<Score>, e: Score): (r: seq<Score>)
    ensures SortedByTime(r)
    ensures |r| == if |list| < 5 then |list| + 1 else 5
    ensures r == SortByTime(list + [e])[..|r|]
    ensures multiset(r) <= multiset(list) + multiset{e}
  {
    var t := SortByTime(list + [e]);
    assert multiset(list + [e]) == multiset(list) + multiset{e};
    if |t| <= 5 then t
    else
      assert t == t[..5] + t[5..];
      t[..5]
  }

  /** Every entry kept is at least as fast as every entry the cut drops. */
  lemma KeptBeatDropped(list: seq<Score>, e: Score)
    ensures var t, r := SortByTime(list + [e]), RecordScore(list, e);
      forall i, j :: 0 <= i < |r| <= j < |t| ==> r[i].time <= t[j].time
  {
  }

  /** Sorting a list already in time order leaves it as it is. */
  lemma {:induction false} SortSorted(s: seq<Score>)
    requires SortedByTime(s)
    ensures SortByTime(s) == s
  {
    if s != [] {
      var p, x := s[..|s| - 1], s[|s| - 1];
      assert SortedByTime(p);
      SortSorted(p);
      InsertLast(p, x);
    }
  }

  /** An entry no faster than the last one of a sorted list goes to its end. */
  lemma {:induction false} InsertLast(s: seq<Score>, e: Score)
    requires SortedByTime(s)
    requires s != [] ==> s[|s| - 1].time <= e.time
    ensures Insert(s, e) == s + [e]
  {
    if s != [] {
      assert s[0].time <= e.time;
      assert SortedByTime(s[1..]);
      InsertLast(s[1..], e);
      assert s == [s[0]] + s[1..];
    }
  }

  /** The number of leading entries of s at least as fast as e. */
  function Rank(s: seq<Score>, e: Score): (p: nat)
    ensures p <= |s|
  {
    if s == [] || e.time < s[0].time then 0 else 1 + Rank(s[1..], e)
  }

  /** In a sorted s, the rank of e separates the entries at least as fast as e
      from the slower ones. */
  lemma {:induction false} RankSplits(s: seq<Score>, e: Score)
    requires SortedByTime(s)
    ensures forall i :: 0 <= i < Rank(s, e) ==> s[i].time <= e.time
    ensures forall i :: Rank(s, e) <= i < |s| ==> e.time < s[i].time
  {
    if s != [] && s[0].time <= e.time {
      var t := s[1..];
      assert SortedByTime(t);
      RankSplits(t, e);
      forall i | 0 <= i < Rank(s, e) ensures s[i].time <= e.time {
        if i > 0 {
          assert s[i] == t[i - 1];
        }
      }
      forall i | Rank(s, e) <= i < |s| ensures e.time < s[i].time {
        assert s[i] == t[i - 1];
      }
    }
  }

  /** e is inserted at its rank. */
  lemma {:induction false} InsertAt(s: seq<Score>, e: Score)
    ensures Insert(s, e) == s[..Rank(s, e)] + [e] + s[Rank(s, e)..]
  {
    if s != [] && s[0].time <= e.time {
      var t, q := s[1..], Rank(s[1..], e);
      InsertAt(t, e);
      assert s == [s[0]] + t;
      ConsSplit(s[0], t, q, e);
    }
  }

  lemma ConsSplit(x: Score, t: seq<Score>, q: nat, e: Score)
    requires q <= |t|
    ensures [x] + (t[..q] + [e] + t[q..]) == ([x] + t)[..q + 1] + [e] + ([x] + t)[q + 1..]
  {
    assert ([x] + t)[..q + 1] == [x] + t[..q];
    assert ([x] + t)[q + 1..] == t[q..];
  }

  /** On a list in time order (as every list this update produces is), the new
      entry lands behind all old entries at least as fast and ahead of all slower
      ones, and the list is then cut to five: the entry stays exactly when fewer
      than five old entries are at least as fast. */
  lemma NewEntryPlace(list: seq<Score>, e: Score)
    requires SortedByTime(list)
    ensures forall i :: 0 <= i < Rank(list, e) ==> list[i].time <= e.time
    ensures forall i :: Rank(list, e) <= i < |list| ==> e.time < list[i].time
    ensures var p := Rank(list, e); var t := list[..p] + [e] + list[p..];
      RecordScore(list, e) == if |t| <= 5 then t else t[..5]
  {
    SortByAppend(list, e);
    RankSplits(list, e);
    InsertAt(list, e);
  }

  /** Sorting a sorted list with one entry appended is inserting that entry. */
  lemma SortByAppend(list: seq<Score>, e: Score)
    requires SortedByTime(list)
    ensures SortByTime(list + [e]) == Insert(list, e)
  {
    var s := list + [e];
    assert s[..|s| - 1] == list;
    SortSorted(list);
  }
}
