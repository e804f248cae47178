/** Sequence helpers shared by the queue, the TTL store and the ingestion model. */
module Seqs {

  predicate Distinct<T(==)>(q: seq<T>) {
    forall i, j :: 0 <= i < j < |q| ==> q[i] != q[j]
  }

  /** Python's `list.remove(x)` guarded by `x in list`: the first occurrence goes. */
  function RemoveFirst<T(==,!new)>(q: seq<T>, x: T): (r: seq<T>)
    ensures forall y :: y != x ==> (y in r <==> y in q)
    ensures x !in q ==> r == q
    ensures x in q ==> |r| == |q| - 1
  {
    if |q| == 0 then q
    else if q[0] == x then q[1..]
    else [q[0]] + RemoveFirst(q[1..], x)
  }

  lemma RemoveFirstSpec<T(!new)>(q: seq<T>, x: T)
    requires Distinct(q)
    ensures Distinct(RemoveFirst(q, x))
    ensures x !in RemoveFirst(q, x)
    ensures forall y :: y in RemoveFirst(q, x) <==> y in q && y != x
    ensures x in q ==> |RemoveFirst(q, x)| == |q| - 1
    ensures x !in q ==> RemoveFirst(q, x) == q
  {
    if |q| > 0 && q[0] != x {
      RemoveFirstSpec(q[1..], x);
      var t := RemoveFirst(q[1..], x);
      assert q[0] !in q[1..] by {
        forall i | 0 <= i < |q[1..]| ensures q[1..][i] != q[0] {
          assert q[1..][i] == q[i + 1];
        }
      }
      assert q[0] !in t;
      assert RemoveFirst(q, x) == [q[0]] + t;
    }
  }

  /** Appending an element not yet present keeps a sequence duplicate-free. */
  lemma AppendFresh<T>(q: seq<T>, x: T)
    requires Distinct(q) && x !in q
    ensures Distinct(q + [x])
  {
    var r := q + [x];
    forall i, j | 0 <= i < j < |r| ensures r[i] != r[j] {
      if j == |q| {
        assert r[i] == q[i];
      } else {
        assert r[i] == q[i] && r[j] == q[j];
      }
    }
  }

  /** The elements of `s` that satisfy `keep`, in the order `s` has them. */
  function Filter<T(!new)>(s: seq<T>, keep: T -> bool): (r: seq<T>)
    ensures |r| <= |s|
    ensures forall x :: x in r <==> x in s && keep(x)
  {
    if |s| == 0 then []
    else if keep(s[0]) then [s[0]] + Filter(s[1..], keep)
    else Filter(s[1..], keep)
  }

  lemma FilterDistinct<T(!new)>(s: seq<T>, keep: T -> bool)
    requires Distinct(s)
    ensures Distinct(Filter(s, keep))
  {
    if |s| > 0 {
      assert Distinct(s[1..]) by {
        forall i, j | 0 <= i < j < |s[1..]| ensures s[1..][i] != s[1..][j] {
          assert s[1..][i] == s[i + 1] && s[1..][j] == s[j + 1];
        }
      }
      FilterDistinct(s[1..], keep);
      assert s[0] !in s[1..] by {
        forall i | 0 <= i < |s[1..]| ensures s[1..][i] != s[0] {
          assert s[1..][i] == s[i + 1];
        }
      }
    }
  }

  lemma FilterConcat<T(!new)>(a: seq<T>, b: seq<T>, keep: T -> bool)
    ensures Filter(a + b, keep) == Filter(a, keep) + Filter(b, keep)
  {
    if |a| > 0 {
      assert (a + b)[1..] == a[1..] + b;
      FilterConcat(a[1..], b, keep);
    } else {
      assert a + b == b;
    }
  }

  lemma FilterNone<T(!new)>(s: seq<T>, keep: T -> bool)
    requires forall i :: 0 <= i < |s| ==> !keep(s[i])
    ensures Filter(s, keep) == []
  {
    if |s| > 0 {
      FilterNone(s[1..], keep);
    }
  }

  lemma FilterKeepsAll<T(!new)>(s: seq<T>, keep: T -> bool)
    requires forall i :: 0 <= i < |s| ==> keep(s[i])
    ensures Filter(s, keep) == s
  {
    if |s| > 0 {
      FilterKeepsAll(s[1..], keep);
    }
  }

  /** A duplicate-free sequence holding exactly the elements of a set has that set's size. */
  lemma DistinctCard<T>(q: seq<T>, s: set<T>)
    requires Distinct(q) && forall x :: x in q <==> x in s
    ensures |q| == |s|
  {
    if |q| > 0 {
      assert Distinct(q[1..]) by {
        forall i, j | 0 <= i < j < |q[1..]| ensures q[1..][i] != q[1..][j] {
          assert q[1..][i] == q[i + 1] && q[1..][j] == q[j + 1];
        }
      }
      assert q[0] !in q[1..] by {
        forall i | 0 <= i < |q[1..]| ensures q[1..][i] != q[0] {
          assert q[1..][i] == q[i + 1];
        }
      }
      forall x ensures x in q[1..] <==> x in s - {q[0]} {
        if x in q && x != q[0] {
          var i :| 0 <= i < |q| && q[i] == x;
          assert q[1..][i - 1] == x;
        }
      }
      DistinctCard(q[1..], s - {q[0]});
    } else {
      assert forall x :: x !in s;
      assert s == {};
    }
  }

  /** A sequence that starts with `h` and continues element by element as `t` is `h + t`. */
  lemma SplitAt<T>(s: seq<T>, h: seq<T>, t: seq<T>)
    requires |s| == |h| + |t| && s[..|h|] == h
    requires forall k :: 0 <= k < |t| ==> s[|h| + k] == t[k]
    ensures s == h + t
  {
  }
}
