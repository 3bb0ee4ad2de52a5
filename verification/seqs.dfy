/**
 * Generic sequence helpers: duplicate removal in first-seen order (the
 * model of "append if not already present" and of insertion-ordered
 * dictionary keys), Python slicing `s[:n]`, and `sorted(set(...))` on
 * strings.
 */
module Seqs {

  import opened Strings

  predicate Distinct<T(==)>(s: seq<T>) {
    forall i, j :: 0 <= i < j < |s| ==> s[i] != s[j]
  }

  /** Position of the first occurrence of `x` in `s`. */
  function FirstIndex<T(==)>(s: seq<T>, x: T): (i: nat)
    requires x in s
    ensures i < |s| && s[i] == x && x !in s[..i]
  {
    if s[0] == x then 0 else FirstIndex(s[1..], x) + 1
  }

  /** The first occurrence of an element of a prefix lies inside the prefix. */
  lemma FirstIndexPrefix<T>(s: seq<T>, k: nat, x: T)
    requires k <= |s| && x in s[..k]
    ensures x in s && FirstIndex(s, x) < k
    ensures FirstIndex(s[..k], x) == FirstIndex(s, x)
  {
    var i := FirstIndex(s, x);
    var j := FirstIndex(s[..k], x);
    assert forall m :: 0 <= m < i ==> s[m] != x by {
      forall m | 0 <= m < i ensures s[m] != x { assert s[m] == s[..i][m]; }
    }
    assert forall m :: 0 <= m < j ==> s[m] != x by {
      forall m | 0 <= m < j ensures s[m] != x { assert s[m] == s[..k][..j][m]; }
    }
    assert s[j] == s[..k][j];
  }

  /** `n * w` as a sum of `n` copies of `w`, which keeps products out of
      the solver's way. */
  function Copies(n: nat, w: nat): nat {
    if n == 0 then 0 else Copies(n - 1, w) + w
  }

  lemma {:induction false} CopiesProduct(n: nat, w: nat)
    ensures Copies(n, w) == n * w
  {
    if n > 0 {
      CopiesProduct(n - 1, w);
      assert (n - 1) * w + w == n * w;
    }
  }

  /** Elements of `s` without repeats, each kept at its first occurrence
      (`for x in s: if x not in r: r.append(x)`). */
  function Dedup<T(==)>(s: seq<T>): (r: seq<T>)
    ensures Distinct(r)
    ensures forall i :: 0 <= i < |r| ==> r[i] in s
    ensures forall i :: 0 <= i < |s| ==> s[i] in r
    ensures |r| <= |s|
    decreases |s|
  {
    if |s| == 0 then []
    else
      var d := Dedup(s[..|s| - 1]);
      if s[|s| - 1] in d then d else d + [s[|s| - 1]]
  }

  /** Dedup keeps first-seen order: earlier output elements occur earlier in the input. */
  lemma {:induction false} DedupFirstSeen<T>(s: seq<T>)
    ensures forall i, j :: 0 <= i < j < |Dedup(s)| ==>
      FirstIndex(s, Dedup(s)[i]) < FirstIndex(s, Dedup(s)[j])
    decreases |s|
  {
    if |s| > 0 {
      var p := s[..|s| - 1];
      var x := s[|s| - 1];
      DedupFirstSeen(p);
      var d := Dedup(p);
      var ds := Dedup(s);
      assert ds == if x in d then d else d + [x];
      forall i, j | 0 <= i < j < |ds|
        ensures FirstIndex(s, ds[i]) < FirstIndex(s, ds[j])
      {
        assert ds[i] == d[i] && d[i] in p;
        if j < |d| {
          assert ds[j] == d[j] && d[j] in p;
          FirstSeenPair(s, d[i], d[j]);
        } else {
          FirstSeenLast(s, d[i]);
        }
      }
    }
  }

  /** First occurrences inside the prefix keep their order in the whole. */
  lemma FirstSeenPair<T>(s: seq<T>, a: T, b: T)
    requires |s| > 0 && a in s[..|s| - 1] && b in s[..|s| - 1]
    requires FirstIndex(s[..|s| - 1], a) < FirstIndex(s[..|s| - 1], b)
    ensures FirstIndex(s, a) < FirstIndex(s, b)
  {
    var n := |s| - 1;
    FirstIndexPrefix(s, n, a);
    FirstIndexPrefix(s, n, b);
    assert FirstIndex(s[..n], a) == FirstIndex(s, a) && FirstIndex(s[..n], b) == FirstIndex(s, b);
  }

  /** An element of the prefix is first seen before a new last element. */
  lemma FirstSeenLast<T>(s: seq<T>, a: T)
    requires |s| > 0 && a in s[..|s| - 1] && s[|s| - 1] !in s[..|s| - 1]
    ensures FirstIndex(s, a) < FirstIndex(s, s[|s| - 1])
  {
    FirstIndexPrefix(s, |s| - 1, a);
    FirstIndexLast(s);
  }

  /** A last element that is new is first seen at the end. */
  lemma FirstIndexLast<T>(s: seq<T>)
    requires |s| > 0 && s[|s| - 1] !in s[..|s| - 1]
    ensures FirstIndex(s, s[|s| - 1]) == |s| - 1
  {
  }

  /** Dedup of a duplicate-free sequence is the sequence itself. */
  lemma {:induction false} DedupDistinct<T>(s: seq<T>)
    requires Distinct(s)
    ensures Dedup(s) == s
    decreases |s|
  {
    if |s| > 0 {
      DedupDistinct(s[..|s| - 1]);
      assert s[|s| - 1] !in s[..|s| - 1];
      assert s[..|s| - 1] + [s[|s| - 1]] == s;
    }
  }

  /** `for x in xs: if x not in d: d.append(x)`. */
  function AppendNew<T(==)>(d: seq<T>, xs: seq<T>): seq<T>
    decreases |xs|
  {
    if |xs| == 0 then d
    else
      var e := AppendNew(d, xs[..|xs| - 1]);
      if xs[|xs| - 1] in e then e else e + [xs[|xs| - 1]]
  }

  /** Appending the new elements of `b` to the dedup of `a` is the dedup of `a + b`. */
  lemma {:induction false} AppendNewDedup<T>(a: seq<T>, b: seq<T>)
    ensures AppendNew(Dedup(a), b) == Dedup(a + b)
    decreases |b|
  {
    if |b| == 0 {
      assert a + b == a;
    } else {
      AppendNewDedup(a, b[..|b| - 1]);
      assert (a + b)[..|a + b| - 1] == a + b[..|b| - 1];
    }
  }

  /** No two elements of `s` agree on `f`. */
  predicate DistinctBy<T, U(==)>(s: seq<T>, f: T -> U) {
    forall i, j :: 0 <= i < j < |s| ==> f(s[i]) != f(s[j])
  }

  /** An element that occurs once has multiplicity one. */
  lemma SingleOccurrence<T>(s: seq<T>, a: nat)
    requires a < |s|
    requires forall m :: 0 <= m < |s| && m != a ==> s[m] != s[a]
    ensures multiset(s)[s[a]] == 1
  {
    var x := s[a];
    var head, tail := s[..a], s[a + 1..];
    assert s == head + [x] + tail;
    assert forall m :: 0 <= m < |head| ==> head[m] != x;
    forall m | 0 <= m < |tail|
      ensures tail[m] != x
    {
      assert tail[m] == s[a + 1 + m];
    }
    assert x !in head && x !in tail;
  }

  /** Elements of multiplicity at most one are pairwise different. */
  lemma CountsAtMostOneDistinct<T>(t: seq<T>)
    requires forall i :: 0 <= i < |t| ==> multiset(t)[t[i]] <= 1
    ensures Distinct(t)
  {
    forall i, j | 0 <= i < j < |t|
      ensures t[i] != t[j]
    {
      var x := t[i];
      assert t == t[..j] + t[j..];
      assert x == t[..j][i];
      assert multiset(t[..j])[x] >= 1;
      assert multiset(t)[x] == multiset(t[..j])[x] + multiset(t[j..])[x];
      assert multiset(t[j..])[x] == 0;
      assert t[j] == t[j..][0];
    }
  }

  /** Reordering keeps elements pairwise different on `f`. */
  lemma PermutationDistinctBy<T, U>(s: seq<T>, t: seq<T>, f: T -> U)
    requires multiset(s) == multiset(t)
    requires DistinctBy(s, f)
    ensures DistinctBy(t, f)
  {
    forall i | 0 <= i < |t|
      ensures multiset(t)[t[i]] <= 1
    {
      assert t[i] in multiset(t);
      assert t[i] in multiset(s);
      var a :| 0 <= a < |s| && s[a] == t[i];
      SingleOccurrence(s, a);
    }
    CountsAtMostOneDistinct(t);
    forall i, j | 0 <= i < j < |t|
      ensures f(t[i]) != f(t[j])
    {
      assert t[i] in multiset(s) && t[j] in multiset(s);
      var a :| 0 <= a < |s| && s[a] == t[i];
      var b :| 0 <= b < |s| && s[b] == t[j];
      assert a != b;
      if a < b {
        assert f(s[a]) != f(s[b]);
      } else {
        assert f(s[b]) != f(s[a]);
      }
    }
  }

  /** `[f(x) for x in s]`. */
  function Map<T, U>(s: seq<T>, f: T -> U): (r: seq<U>)
    ensures |r| == |s|
    ensures forall i :: 0 <= i < |s| ==> r[i] == f(s[i])
  {
    seq(|s|, i requires 0 <= i < |s| => f(s[i]))
  }

  lemma MapAppend<T, U>(s: seq<T>, x: T, f: T -> U)
    ensures Map(s + [x], f) == Map(s, f) + [f(x)]
  {
  }

  lemma MapConcat<T, U>(a: seq<T>, b: seq<T>, f: T -> U)
    ensures Map(a + b, f) == Map(a, f) + Map(b, f)
  {
  }

  lemma MapLast<T, U>(s: seq<T>, f: T -> U)
    requires |s| > 0
    ensures Map(s, f) == Map(s[..|s| - 1], f) + [f(s[|s| - 1])]
  {
    assert s == s[..|s| - 1] + [s[|s| - 1]];
    MapAppend(s[..|s| - 1], s[|s| - 1], f);
  }

  function Min(a: int, b: int): int { if a <= b then a else b }

  /** Python slice `s[:n]`. */
  function Take<T>(s: seq<T>, n: nat): (r: seq<T>)
    ensures |r| == Min(n, |s|)
    ensures r == s[..|r|]
  {
    if n <= |s| then s[..n] else s
  }

  // ---------------------------------------------------------------------
  // sorted(set(...)) on strings
  // ---------------------------------------------------------------------

  predicate StrictlySorted(s: seq<string>) {
    forall i, j :: 0 <= i < j < |s| ==> Less(s[i], s[j])
  }

  /** A strictly sorted sequence has no repeats. */
  lemma StrictlySortedDistinct(s: seq<string>)
    requires StrictlySorted(s)
    ensures Distinct(s)
  {
    forall i, j | 0 <= i < j < |s|
      ensures s[i] != s[j]
    {
      LessIrreflexive(s[i]);
    }
  }

  /** Adds `x` to a strictly sorted sequence at its place, unless present. */
  function InsertSorted(x: string, s: seq<string>): (r: seq<string>)
    requires StrictlySorted(s)
    ensures StrictlySorted(r)
    ensures forall y :: y in r <==> y == x || y in s
    decreases |s|
  {
    if |s| == 0 then [x]
    else if x == s[0] then s
    else if Less(x, s[0]) then
      assert forall j :: 0 <= j < |s| ==> Less(x, s[j]) by {
        forall j | 0 <= j < |s| ensures Less(x, s[j]) {
          if j > 0 { LessTransitive(x, s[0], s[j]); }
        }
      }
      [x] + s
    else
      LessTotal(x, s[0]);
      var t := InsertSorted(x, s[1..]);
      assert forall j :: 0 <= j < |t| ==> Less(s[0], t[j]) by {
        forall j | 0 <= j < |t| ensures Less(s[0], t[j]) {
          if t[j] != x {
            assert t[j] in t;
            assert t[j] in s[1..];
            var m :| 0 <= m < |s[1..]| && s[1..][m] == t[j];
            assert s[m + 1] == t[j];
          }
        }
      }
      [s[0]] + t
  }

  /** The elements of `a` that are not in `b` (a set difference). */
  function Minus(a: seq<string>, b: seq<string>): (r: seq<string>)
    ensures forall x :: x in r <==> x in a && x !in b
    decreases |a|
  {
    if |a| == 0 then []
    else
      var p := a[..|a| - 1];
      assert a == p + [a[|a| - 1]];
      if a[|a| - 1] in b then Minus(p, b) else Minus(p, b) + [a[|a| - 1]]
  }

  /** `sorted(set(xs))`: the distinct elements of `xs` in increasing order. */
  function SortedSet(xs: seq<string>): (r: seq<string>)
    ensures StrictlySorted(r)
    ensures forall y :: y in r <==> y in xs
    decreases |xs|
  {
    if |xs| == 0 then [] else InsertSorted(xs[|xs| - 1], SortedSet(xs[..|xs| - 1]))
  }

  /** A set of strings has exactly one strictly sorted listing, so SortedSet
      is Python's `sorted` of the set whatever order the elements came in. */
  lemma {:induction false} SortedListingUnique(a: seq<string>, b: seq<string>)
    requires StrictlySorted(a) && StrictlySorted(b)
    requires forall y :: y in a <==> y in b
    ensures a == b
    decreases |a|
  {
    if |a| > 0 {
      assert a[0] in a;
      assert a[0] in b;
      assert b[0] in b;
      assert b[0] in a;
      var i :| 0 <= i < |a| && a[i] == b[0];
      var j :| 0 <= j < |b| && b[j] == a[0];
      if i > 0 {
        LessAsymmetric(a[0], b[0]);
      }
      assert a[0] == b[0];
      StrictlySortedDistinct(a);
      StrictlySortedDistinct(b);
      assert a == [a[0]] + a[1..] && b == [b[0]] + b[1..];
      forall y
        ensures y in a[1..] <==> y in b[1..]
      {
        if y in a[1..] {
          var m :| 0 <= m < |a[1..]| && a[1..][m] == y;
          assert a[m + 1] == y && a[0] != y;
          assert y in b;
        }
        if y in b[1..] {
          var m :| 0 <= m < |b[1..]| && b[1..][m] == y;
          assert b[m + 1] == y && b[0] != y;
          assert y in a;
        }
      }
      SortedListingUnique(a[1..], b[1..]);
    } else {
      if |b| > 0 {
        assert false;
      }
    }
  }

  /** A prefix of a strictly sorted sequence is strictly sorted. */
  lemma TakeSorted(s: seq<string>, n: nat)
    requires StrictlySorted(s)
    ensures StrictlySorted(Take(s, n))
  {
  }

  /** An element a sorted prefix leaves out comes after everything it keeps,
      and the prefix is full. */
  lemma TakeLeftOut(s: seq<string>, n: nat, x: string)
    requires StrictlySorted(s) && x in s && x !in Take(s, n)
    ensures |Take(s, n)| == n && forall k :: 0 <= k < n ==> Less(Take(s, n)[k], x)
  {
    var t := Take(s, n);
    var m :| 0 <= m < |s| && s[m] == x;
    assert m >= |t| by {
      assert forall k :: 0 <= k < |t| ==> t[k] == s[k];
    }
  }

  // ---------------------------------------------------------------------
  // Filtering
  // ---------------------------------------------------------------------

  /** `[x for x in s if keep(x)]`. */
  function Filter<T>(s: seq<T>, keep: T -> bool): (r: seq<T>)
    ensures |r| <= |s|
    decreases |s|
  {
    if |s| == 0 then [] else (if keep(s[0]) then [s[0]] else []) + Filter(s[1..], keep)
  }

  lemma {:induction false} FilterAppend<T>(a: seq<T>, b: seq<T>, keep: T -> bool)
    ensures Filter(a + b, keep) == Filter(a, keep) + Filter(b, keep)
    decreases |a|
  {
    if |a| > 0 {
      assert (a + b)[1..] == a[1..] + b;
      FilterAppend(a[1..], b, keep);
    } else {
      assert a + b == b;
    }
  }

  lemma FilterSingle<T>(x: T, keep: T -> bool)
    ensures Filter([x], keep) == if keep(x) then [x] else []
  {
    assert [x][1..] == [];
  }

  /** Filtering a sequence that starts with `x`. */
  lemma FilterCons<T>(x: T, s: seq<T>, keep: T -> bool)
    ensures Filter([x] + s, keep) == (if keep(x) then [x] else []) + Filter(s, keep)
  {
    FilterAppend([x], s, keep);
    FilterSingle(x, keep);
  }

  /** Filtering a sequence that ends in `x`. */
  lemma FilterSnoc<T>(s: seq<T>, x: T, keep: T -> bool)
    ensures Filter(s + [x], keep) == Filter(s, keep) + (if keep(x) then [x] else [])
  {
    FilterAppend(s, [x], keep);
    FilterSingle(x, keep);
  }

  /** Mapping a filtered sequence extended by one element. */
  lemma MapFilterSnoc<T, U>(s: seq<T>, x: T, keep: T -> bool, f: T -> U)
    ensures Map(Filter(s + [x], keep), f) == Map(Filter(s, keep), f) + (if keep(x) then [f(x)] else [])
  {
    FilterSnoc(s, x, keep);
    if keep(x) {
      MapAppend(Filter(s, keep), x, f);
    } else {
      assert Filter(s, keep) + [] == Filter(s, keep);
      assert Map(Filter(s, keep), f) + [] == Map(Filter(s, keep), f);
    }
  }

  /** Putting a new value in front of a duplicate-free list keeps it duplicate-free. */
  lemma DistinctCons<T>(x: T, s: seq<T>)
    requires Distinct(s) && x !in s
    ensures Distinct([x] + s)
  {
    var t := [x] + s;
    forall i, j | 0 <= i < j < |t| ensures t[i] != t[j] {
      assert t[j] == s[j - 1];
      if i > 0 {
        assert t[i] == s[i - 1];
      }
    }
  }

  /** A filter keeps a subsequence, so images that were pairwise distinct
      stay pairwise distinct. */
  lemma {:induction false} MapFilterDistinct<T, U>(s: seq<T>, keep: T -> bool, f: T -> U)
    requires DistinctBy(s, f)
    ensures Distinct(Map(Filter(s, keep), f))
    decreases |s|
  {
    if |s| > 0 {
      var q := s[1..];
      assert DistinctBy(q, f) by {
        forall i, j | 0 <= i < j < |q| ensures f(q[i]) != f(q[j]) {
          assert q[i] == s[i + 1] && q[j] == s[j + 1];
        }
      }
      MapFilterDistinct(q, keep, f);
      var rest := Filter(q, keep);
      if keep(s[0]) {
        var m := Map(Filter(s, keep), f);
        assert Filter(s, keep) == [s[0]] + rest;
        forall i, j | 0 <= i < j < |m| ensures m[i] != m[j] {
          assert m[j] == f(rest[j - 1]);
          if i == 0 {
            InFilter(q, keep, rest[j - 1]);
            var k :| 0 <= k < |q| && q[k] == rest[j - 1];
            assert s[k + 1] == rest[j - 1];
          } else {
            assert m[i] == f(rest[i - 1]);
          }
        }
      } else {
        assert Filter(s, keep) == rest;
      }
    }
  }

  /** Removing duplicates and filtering commute: the filter keeps the
      first-seen order of what it keeps. */
  lemma {:induction false} DedupFilter<T>(s: seq<T>, keep: T -> bool)
    ensures Dedup(Filter(s, keep)) == Filter(Dedup(s), keep)
    decreases |s|
  {
    if |s| > 0 {
      var q := s[..|s| - 1];
      assert s == q + [s[|s| - 1]];
      DedupFilter(q, keep);
      DedupFilterSnoc(q, s[|s| - 1], keep);
    }
  }

  /** The step of `DedupFilter`: one more element at the end. */
  lemma DedupFilterSnoc<T>(q: seq<T>, x: T, keep: T -> bool)
    requires Dedup(Filter(q, keep)) == Filter(Dedup(q), keep)
    ensures Dedup(Filter(q + [x], keep)) == Filter(Dedup(q + [x]), keep)
  {
    var d := Dedup(q);
    var f := Filter(q, keep);
    FilterSnoc(q, x, keep);
    DedupSnoc(q, x);
    if keep(x) {
      DedupSnoc(f, x);
      InDedup(q, x);
      InDedup(f, x);
      InFilter(q, keep, x);
      if x !in d {
        FilterSnoc(d, x, keep);
      }
    } else {
      assert f + [] == f;
      if x !in d {
        FilterSnoc(d, x, keep);
        assert Filter(d, keep) + [] == Filter(d, keep);
      }
    }
  }

  lemma DedupSnoc<T>(s: seq<T>, x: T)
    ensures Dedup(s + [x]) == if x in Dedup(s) then Dedup(s) else Dedup(s) + [x]
  {
    assert (s + [x])[..|s|] == s;
  }

  lemma InDedup<T>(s: seq<T>, x: T)
    ensures x in Dedup(s) <==> x in s
  {
  }

  /** The filter keeps exactly the elements that pass it. */
  lemma {:induction false} InFilter<T>(s: seq<T>, keep: T -> bool, x: T)
    ensures x in Filter(s, keep) <==> x in s && keep(x)
    decreases |s|
  {
    if |s| > 0 {
      InFilter(s[1..], keep, x);
      assert s == [s[0]] + s[1..];
    }
  }

  /** Mapping the kept elements is keeping the mapped ones, when `f`
      carries the test over. */
  lemma {:induction false} MapFilter<T, U>(s: seq<T>, keep: T -> bool, f: T -> U, keepImage: U -> bool)
    requires forall x :: keepImage(f(x)) == keep(x)
    ensures Map(Filter(s, keep), f) == Filter(Map(s, f), keepImage)
    decreases |s|
  {
    if |s| > 0 {
      MapFilter(s[1..], keep, f, keepImage);
      assert Map(s, f)[1..] == Map(s[1..], f);
      assert Map(s, f)[0] == f(s[0]);
      MapConcat(if keep(s[0]) then [s[0]] else [], Filter(s[1..], keep), f);
    }
  }
}
