/**
 * Python's `sorted(xs, key=lambda x: -k(x))` (and `list.sort` with the
 * same key): a stable sort into non-increasing order of an integer key.
 * Elements with equal keys keep their input order.
 */
module Sorting {

  import Seqs

  predicate NonIncreasing<T>(s: seq<T>, key: T -> int) {
    forall i, j :: 0 <= i < j < |s| ==> key(s[i]) >= key(s[j])
  }

  /** Places `x` in front of the first element whose key is strictly smaller,
      i.e. before every element with an equal key. */
  function Insert<T(==)>(x: T, s: seq<T>, key: T -> int): (r: seq<T>)
    requires NonIncreasing(s, key)
    ensures NonIncreasing(r, key)
    ensures multiset(r) == multiset(s) + multiset{x}
    ensures |r| == |s| + 1
    decreases |s|
  {
    if |s| == 0 || key(x) >= key(s[0]) then [x] + s
    else
      var t := Insert(x, s[1..], key);
      assert s == [s[0]] + s[1..];
      InsertFront(s[0], x, s[1..], t, key);
      [s[0]] + t
  }

  /** An element no smaller than everything behind it may lead. */
  lemma InsertFront<T>(h: T, x: T, rest: seq<T>, t: seq<T>, key: T -> int)
    requires NonIncreasing([h] + rest, key) && key(x) < key(h)
    requires NonIncreasing(t, key) && multiset(t) == multiset(rest) + multiset{x}
    ensures NonIncreasing([h] + t, key)
  {
    forall j | 0 <= j < |t|
      ensures key(t[j]) <= key(h)
    {
      assert t[j] in multiset(t);
      if t[j] != x {
        assert t[j] in multiset(rest);
        var k :| 0 <= k < |rest| && rest[k] == t[j];
        assert ([h] + rest)[0] == h && ([h] + rest)[k + 1] == rest[k];
      }
    }
    forall i, j | 0 <= i < j < |[h] + t|
      ensures key(([h] + t)[i]) >= key(([h] + t)[j])
    {
      if i > 0 {
        assert ([h] + t)[i] == t[i - 1] && ([h] + t)[j] == t[j - 1];
      }
    }
  }

  /** The stable descending sort. */
  function SortDesc<T(==)>(s: seq<T>, key: T -> int): (r: seq<T>)
    ensures NonIncreasing(r, key)
    ensures multiset(r) == multiset(s)
    ensures |r| == |s|
    decreases |s|
  {
    if |s| == 0 then []
    else
      assert s == [s[0]] + s[1..];
      Insert(s[0], SortDesc(s[1..], key), key)
  }

  /** The elements of `s` whose key is `k`, in order. */
  function WithKey<T>(s: seq<T>, key: T -> int, k: int): seq<T>
    decreases |s|
  {
    if |s| == 0 then []
    else (if key(s[0]) == k then [s[0]] else []) + WithKey(s[1..], key, k)
  }

  lemma {:induction false} WithKeyInsert<T>(x: T, s: seq<T>, key: T -> int, k: int)
    requires NonIncreasing(s, key)
    ensures WithKey(Insert(x, s, key), key, k) == WithKey([x] + s, key, k)
    decreases |s|
  {
    if |s| > 0 && key(x) < key(s[0]) {
      WithKeyInsert(x, s[1..], key, k);
      var t := Insert(x, s[1..], key);
      assert Insert(x, s, key)[1..] == t;
      assert ([x] + s)[1..] == s;
      assert ([x] + s[1..])[1..] == s[1..];
      if key(x) == k {
        // every element of s[1..] that the sort skipped has a key above k
        assert key(s[0]) != k;
      }
    }
  }

  /** Stability: for every key value, the elements carrying it appear in
      the output in the same order as in the input. */
  lemma {:induction false} SortStable<T>(s: seq<T>, key: T -> int, k: int)
    ensures WithKey(SortDesc(s, key), key, k) == WithKey(s, key, k)
    decreases |s|
  {
    if |s| > 0 {
      SortStable(s[1..], key, k);
      WithKeyInsert(s[0], SortDesc(s[1..], key), key, k);
      assert ([s[0]] + SortDesc(s[1..], key))[1..] == SortDesc(s[1..], key);
    }
  }

  /** Placing `h` in front of elements no larger keeps the order. */
  lemma Prepend<T>(h: T, t: seq<T>, key: T -> int)
    requires NonIncreasing(t, key)
    requires forall j :: 0 <= j < |t| ==> key(t[j]) <= key(h)
    ensures NonIncreasing([h] + t, key)
  {
    forall i, j | 0 <= i < j < |[h] + t|
      ensures key(([h] + t)[i]) >= key(([h] + t)[j])
    {
      assert ([h] + t)[j] == t[j - 1];
      if i > 0 {
        assert ([h] + t)[i] == t[i - 1];
      }
    }
  }

  /** A filtered sorted sequence is sorted. */
  lemma {:induction false} FilterNonIncreasing<T>(s: seq<T>, key: T -> int, keep: T -> bool)
    requires NonIncreasing(s, key)
    ensures NonIncreasing(Seqs.Filter(s, keep), key)
    decreases |s|
  {
    if |s| > 0 {
      var t := Seqs.Filter(s[1..], keep);
      assert s == [s[0]] + s[1..];
      FilterNonIncreasing(s[1..], key, keep);
      Seqs.FilterCons(s[0], s[1..], keep);
      if keep(s[0]) {
        forall j | 0 <= j < |t|
          ensures key(t[j]) <= key(s[0])
        {
          Seqs.InFilter(s[1..], keep, t[j]);
          var k :| 0 <= k < |s[1..]| && s[1..][k] == t[j];
          assert s[k + 1] == t[j];
        }
        Prepend(s[0], t, key);
      }
    }
  }

  /** Inserting an element the filter drops changes nothing it keeps. */
  lemma {:induction false} InsertDropped<T>(x: T, t: seq<T>, key: T -> int, keep: T -> bool)
    requires NonIncreasing(t, key) && !keep(x)
    ensures Seqs.Filter(Insert(x, t, key), keep) == Seqs.Filter(t, keep)
    decreases |t|
  {
    if |t| == 0 || key(x) >= key(t[0]) {
      Seqs.FilterCons(x, t, keep);
      assert [] + Seqs.Filter(t, keep) == Seqs.Filter(t, keep);
    } else {
      InsertDropped(x, t[1..], key, keep);
      assert t == [t[0]] + t[1..];
      Seqs.FilterCons(t[0], Insert(x, t[1..], key), keep);
      Seqs.FilterCons(t[0], t[1..], keep);
    }
  }

  /** Inserting an element the filter keeps, before or after filtering. */
  lemma {:induction false} InsertKept<T>(x: T, t: seq<T>, key: T -> int, keep: T -> bool)
    requires NonIncreasing(t, key) && NonIncreasing(Seqs.Filter(t, keep), key) && keep(x)
    ensures Insert(x, Seqs.Filter(t, keep), key) == Seqs.Filter(Insert(x, t, key), keep)
    decreases |t|
  {
    if |t| == 0 || key(x) >= key(t[0]) {
      InsertKeptFront(x, t, key, keep);
    } else {
      assert t == [t[0]] + t[1..];
      FilterNonIncreasing(t[1..], key, keep);
      InsertKept(x, t[1..], key, keep);
      InsertKeptBehind(x, t, key, keep);
    }
  }

  /** `x` goes in front of `t`, so it goes in front of what the filter keeps. */
  lemma InsertKeptFront<T>(x: T, t: seq<T>, key: T -> int, keep: T -> bool)
    requires NonIncreasing(t, key) && NonIncreasing(Seqs.Filter(t, keep), key) && keep(x)
    requires |t| == 0 || key(x) >= key(t[0])
    ensures Insert(x, Seqs.Filter(t, keep), key) == Seqs.Filter(Insert(x, t, key), keep)
  {
    var f := Seqs.Filter(t, keep);
    if |f| > 0 {
      Seqs.InFilter(t, keep, f[0]);
      var k :| 0 <= k < |t| && t[k] == f[0];
      assert key(f[0]) <= key(t[0]);
    }
    InsertAtFront(x, t, key);
    InsertAtFront(x, f, key);
    Seqs.FilterCons(x, t, keep);
  }

  /** `x` goes behind the head of `t`; the rest follows from the tail. */
  lemma InsertKeptBehind<T>(x: T, t: seq<T>, key: T -> int, keep: T -> bool)
    requires NonIncreasing(t, key) && NonIncreasing(Seqs.Filter(t, keep), key) && keep(x)
    requires |t| > 0 && key(x) < key(t[0])
    requires NonIncreasing(Seqs.Filter(t[1..], keep), key)
    requires Insert(x, Seqs.Filter(t[1..], keep), key) == Seqs.Filter(Insert(x, t[1..], key), keep)
    ensures Insert(x, Seqs.Filter(t, keep), key) == Seqs.Filter(Insert(x, t, key), keep)
  {
    var i1 := Insert(x, t[1..], key);
    InsertBehind(x, t, key);
    Seqs.FilterCons(t[0], i1, keep);
    if keep(t[0]) {
      HeadKept(x, t, key, keep);
    } else {
      assert [] + Seqs.Filter(i1, keep) == Seqs.Filter(i1, keep);
      HeadDropped(t, keep);
    }
  }

  lemma HeadDropped<T>(t: seq<T>, keep: T -> bool)
    requires |t| > 0 && !keep(t[0])
    ensures Seqs.Filter(t, keep) == Seqs.Filter(t[1..], keep)
  {
    assert [] + Seqs.Filter(t[1..], keep) == Seqs.Filter(t[1..], keep);
  }

  /** The filter keeps the head of `t`, which stays ahead of `x`. */
  lemma HeadKept<T>(x: T, t: seq<T>, key: T -> int, keep: T -> bool)
    requires |t| > 0 && key(x) < key(t[0]) && keep(t[0])
    requires NonIncreasing(Seqs.Filter(t, keep), key) && NonIncreasing(Seqs.Filter(t[1..], keep), key)
    ensures Insert(x, Seqs.Filter(t, keep), key) == [t[0]] + Insert(x, Seqs.Filter(t[1..], keep), key)
  {
    var f := Seqs.Filter(t, keep);
    var f1 := Seqs.Filter(t[1..], keep);
    assert f == [t[0]] + f1;
    assert f[1..] == f1;
    InsertBehind(x, f, key);
  }

  lemma InsertAtFront<T>(x: T, t: seq<T>, key: T -> int)
    requires NonIncreasing(t, key)
    requires |t| == 0 || key(x) >= key(t[0])
    ensures Insert(x, t, key) == [x] + t
  {
  }

  lemma InsertBehind<T>(x: T, t: seq<T>, key: T -> int)
    requires NonIncreasing(t, key)
    requires |t| > 0 && key(x) < key(t[0])
    ensures NonIncreasing(t[1..], key)
    ensures Insert(x, t, key) == [t[0]] + Insert(x, t[1..], key)
  {
  }

  /** Sorting and filtering commute: the stable sort of the kept elements
      is the kept part of the stable sort. */
  lemma {:induction false} SortFilter<T>(s: seq<T>, key: T -> int, keep: T -> bool)
    ensures SortDesc(Seqs.Filter(s, keep), key) == Seqs.Filter(SortDesc(s, key), keep)
    decreases |s|
  {
    if |s| > 0 {
      var rest := SortDesc(s[1..], key);
      var f := Seqs.Filter(s[1..], keep);
      assert s == [s[0]] + s[1..];
      SortFilter(s[1..], key, keep);
      Seqs.FilterCons(s[0], s[1..], keep);
      if keep(s[0]) {
        var g := [s[0]] + f;
        assert g[0] == s[0] && g[1..] == f;
        FilterNonIncreasing(rest, key, keep);
        InsertKept(s[0], rest, key, keep);
      } else {
        assert [] + f == f;
        InsertDropped(s[0], rest, key, keep);
      }
    }
  }

  /** Sum of `f` over a sequence. */
  function Total<T>(s: seq<T>, f: T -> int): int
    decreases |s|
  {
    if |s| == 0 then 0 else f(s[0]) + Total(s[1..], f)
  }

  lemma {:induction false} TotalAppend<T>(s: seq<T>, t: seq<T>, f: T -> int)
    ensures Total(s + t, f) == Total(s, f) + Total(t, f)
    decreases |s|
  {
    if |s| > 0 {
      TotalAppend(s[1..], t, f);
      assert (s + t)[1..] == s[1..] + t;
    } else {
      assert s + t == t;
    }
  }

  lemma {:induction false} TotalUpdate<T>(s: seq<T>, i: nat, v: T, f: T -> int)
    requires i < |s|
    ensures Total(s[i := v], f) == Total(s, f) - f(s[i]) + f(v)
    decreases |s|
  {
    if i > 0 {
      TotalUpdate(s[1..], i - 1, v, f);
      assert s[i := v][1..] == s[1..][i - 1 := v];
    } else {
      assert s[i := v][1..] == s[1..];
    }
  }

  lemma {:induction false} TotalInsert<T>(x: T, s: seq<T>, key: T -> int, f: T -> int)
    requires NonIncreasing(s, key)
    ensures Total(Insert(x, s, key), f) == f(x) + Total(s, f)
    decreases |s|
  {
    if |s| > 0 && key(x) < key(s[0]) {
      TotalInsert(x, s[1..], key, f);
      assert Insert(x, s, key)[1..] == Insert(x, s[1..], key);
    } else {
      assert Insert(x, s, key)[1..] == s;
    }
  }

  /** Sorting does not change any sum over the elements. */
  lemma {:induction false} TotalSort<T>(s: seq<T>, key: T -> int, f: T -> int)
    ensures Total(SortDesc(s, key), f) == Total(s, f)
    decreases |s|
  {
    if |s| > 0 {
      TotalSort(s[1..], key, f);
      TotalInsert(s[0], SortDesc(s[1..], key), key, f);
    }
  }
}
