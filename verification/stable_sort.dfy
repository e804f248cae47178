/**
 * Python's `list.sort(key=...)` on keys that compare as pairs of integers:
 * a stable sort, so elements with equal keys keep their input order.
 */
module StableSort {
  import opened Seqs

  /** A sort key compared lexicographically, as Python compares tuples. */
  type Rank = (int, int)

  predicate RankLe(a: Rank, b: Rank) {
    a.0 < b.0 || (a.0 == b.0 && a.1 <= b.1)
  }

  predicate Sorted<T(!new)>(s: seq<T>, key: T -> Rank) {
    forall i, j :: 0 <= i < j < |s| ==> RankLe(key(s[i]), key(s[j]))
  }

  /** `x` placed just before the first element whose key is strictly larger. */
  function Insert<T(!new)>(x: T, s: seq<T>, key: T -> Rank): (r: seq<T>)
    ensures |r| == |s| + 1
    ensures forall y :: y in r <==> y == x || y in s
  {
    if |s| == 0 then [x]
    else if !RankLe(key(s[0]), key(x)) then [x] + s
    else [s[0]] + Insert(x, s[1..], key)
  }

  /** Insertion sort from the left: each element goes after every earlier one with a key no larger. */
  function Sort<T(!new)>(s: seq<T>, key: T -> Rank): (r: seq<T>)
    ensures |r| == |s|
    ensures forall y :: y in r <==> y in s
  {
    if |s| == 0 then [] else Insert(s[|s| - 1], Sort(s[..|s| - 1], key), key)
  }

  /** Elements whose key equals `k`. */
  function HasRank<T(!new)>(key: T -> Rank, k: Rank): T -> bool {
    y => key(y) == k
  }

  lemma InsertSorted<T(!new)>(x: T, s: seq<T>, key: T -> Rank)
    requires Sorted(s, key)
    ensures Sorted(Insert(x, s, key), key)
  {
    if |s| > 0 && RankLe(key(s[0]), key(x)) {
      InsertSorted(x, s[1..], key);
      var t := Insert(x, s[1..], key);
      forall j | 0 <= j < |t| ensures RankLe(key(s[0]), key(t[j])) {
        assert t[j] in t;
        if t[j] != x {
          var m :| 0 <= m < |s[1..]| && s[1..][m] == t[j];
          assert s[m + 1] == t[j];
        }
      }
    }
  }

  lemma {:induction false} SortSorted<T(!new)>(s: seq<T>, key: T -> Rank)
    ensures Sorted(Sort(s, key), key)
  {
    if |s| > 0 {
      SortSorted(s[..|s| - 1], key);
      InsertSorted(s[|s| - 1], Sort(s[..|s| - 1], key), key);
    }
  }

  lemma InsertPermutes<T(!new)>(x: T, s: seq<T>, key: T -> Rank)
    ensures multiset(Insert(x, s, key)) == multiset(s) + multiset{x}
  {
    if |s| > 0 && RankLe(key(s[0]), key(x)) {
      InsertPermutes(x, s[1..], key);
      assert s == [s[0]] + s[1..];
    }
  }

  lemma {:induction false} SortPermutes<T(!new)>(s: seq<T>, key: T -> Rank)
    ensures multiset(Sort(s, key)) == multiset(s)
  {
    if |s| > 0 {
      var init := s[..|s| - 1];
      SortPermutes(init, key);
      InsertPermutes(s[|s| - 1], Sort(init, key), key);
      assert s == init + [s[|s| - 1]];
    }
  }

  /** Among elements of one rank, `x` lands after every element already there. */
  lemma {:induction false} InsertStable<T(!new)>(x: T, s: seq<T>, key: T -> Rank, k: Rank)
    requires Sorted(s, key)
    ensures Filter(Insert(x, s, key), HasRank(key, k)) == Filter(s, HasRank(key, k)) + Filter([x], HasRank(key, k))
  {
    var p := HasRank(key, k);
    assert Filter([x], p) == (if key(x) == k then [x] else []) by {
      assert [x][1..] == [];
    }
    if |s| == 0 {
    } else if !RankLe(key(s[0]), key(x)) {
      if key(x) == k {
        forall m | 0 <= m < |s| ensures !p(s[m]) {
          if m > 0 {
            assert RankLe(key(s[0]), key(s[m]));
          }
        }
        FilterNone(s, p);
      }
      assert ([x] + s)[1..] == s;
    } else {
      assert Sorted(s[1..], key) by {
        forall i, j | 0 <= i < j < |s[1..]| ensures RankLe(key(s[1..][i]), key(s[1..][j])) {
          assert s[1..][i] == s[i + 1] && s[1..][j] == s[j + 1];
        }
      }
      InsertStable(x, s[1..], key, k);
      assert ([s[0]] + Insert(x, s[1..], key))[1..] == Insert(x, s[1..], key);
    }
  }

  /** Stability: for every key, the elements with that key appear in their input order. */
  lemma {:induction false} SortStable<T(!new)>(s: seq<T>, key: T -> Rank, k: Rank)
    ensures Filter(Sort(s, key), HasRank(key, k)) == Filter(s, HasRank(key, k))
  {
    if |s| > 0 {
      var init, last := s[..|s| - 1], s[|s| - 1];
      SortStable(init, key, k);
      SortSorted(init, key);
      InsertStable(last, Sort(init, key), key, k);
      assert s == init + [last];
      FilterConcat(init, [last], HasRank(key, k));
    }
  }
}
