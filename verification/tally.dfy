/**
 * An insertion-ordered counting dictionary, the model of Python's
 * `counts[k] = counts.get(k, 0) + 1` loops over a `dict` (and of a
 * `defaultdict(int)` bumped by one): `keys` lists the keys in first-seen
 * order and `counts` holds the tallies.
 */
module Tally {

  import opened Seqs

  datatype Counter<K> = Counter(keys: seq<K>, counts: map<K, nat>)

  /** Keys are listed once each and are exactly the keys of the map. */
  ghost predicate Valid<K>(c: Counter<K>) {
    && Distinct(c.keys)
    && (forall i :: 0 <= i < |c.keys| ==> c.keys[i] in c.counts)
    && (forall k :: k in c.counts ==> k in c.keys)
  }

  /** Number of occurrences of `k` in `xs`. */
  function Occurrences<K(==)>(xs: seq<K>, k: K): (n: nat)
    ensures n <= |xs|
    ensures n > 0 <==> k in xs
    decreases |xs|
  {
    if |xs| == 0 then 0
    else Occurrences(xs[..|xs| - 1], k) + (if xs[|xs| - 1] == k then 1 else 0)
  }

  /** `counts[k] = counts.get(k, 0) + 1`. */
  function Bump<K(==)>(c: Counter<K>, k: K): Counter<K> {
    if k in c.counts then Counter(c.keys, c.counts[k := c.counts[k] + 1])
    else Counter(c.keys + [k], c.counts[k := 1])
  }

  /** Sum of the tallies of `keys`. */
  function SumOver<K>(keys: seq<K>, m: map<K, nat>): int
    requires forall i :: 0 <= i < |keys| ==> keys[i] in m
    decreases |keys|
  {
    if |keys| == 0 then 0 else m[keys[0]] + SumOver(keys[1..], m)
  }

  lemma {:induction false} SumOverUpdate<K>(keys: seq<K>, m: map<K, nat>, k: K, v: nat)
    requires forall i :: 0 <= i < |keys| ==> keys[i] in m
    requires Distinct(keys) && k in m
    ensures forall i :: 0 <= i < |keys| ==> keys[i] in m[k := v]
    ensures SumOver(keys, m[k := v]) == SumOver(keys, m) + (if k in keys then v - m[k] else 0)
    decreases |keys|
  {
    if |keys| > 0 {
      SumOverUpdate(keys[1..], m, k, v);
      if keys[0] == k {
        assert k !in keys[1..];
      }
    }
  }

  lemma {:induction false} SumOverFresh<K>(keys: seq<K>, m: map<K, nat>, k: K, v: nat)
    requires forall i :: 0 <= i < |keys| ==> keys[i] in m
    requires k !in keys
    ensures forall i :: 0 <= i < |keys + [k]| ==> (keys + [k])[i] in m[k := v]
    ensures SumOver(keys + [k], m[k := v]) == SumOver(keys, m) + v
    decreases |keys|
  {
    if |keys| > 0 {
      SumOverFresh(keys[1..], m, k, v);
      assert (keys + [k])[1..] == keys[1..] + [k];
    } else {
      assert (keys + [k])[1..] == [];
    }
  }

  /** Sum of all tallies. */
  function Total<K>(c: Counter<K>): int
    requires forall i :: 0 <= i < |c.keys| ==> c.keys[i] in c.counts
  {
    SumOver(c.keys, c.counts)
  }

  /** Counts the elements of `xs` in order (a left fold of Bump). */
  function Count<K(==)>(xs: seq<K>): Counter<K>
    decreases |xs|
  {
    if |xs| == 0 then Counter([], map[]) else Bump(Count(xs[..|xs| - 1]), xs[|xs| - 1])
  }

  /** The keys of Count are the distinct elements in first-seen order, each
      tally is the element's number of occurrences, and the tallies add up
      to `|xs|`. */
  lemma {:induction false} CountSpec<K>(xs: seq<K>)
    ensures Valid(Count(xs))
    ensures Count(xs).keys == Dedup(xs)
    ensures forall k :: k in Count(xs).counts ==> Count(xs).counts[k] == Occurrences(xs, k)
    ensures Total(Count(xs)) == |xs|
    decreases |xs|
  {
    if |xs| > 0 {
      var p := xs[..|xs| - 1];
      var x := xs[|xs| - 1];
      CountSpec(p);
      var c := Count(p);
      assert Dedup(xs) == (if x in Dedup(p) then Dedup(p) else Dedup(p) + [x]);
      assert forall k :: Occurrences(xs, k) == Occurrences(p, k) + (if x == k then 1 else 0);
      if x in c.counts {
        SumOverUpdate(c.keys, c.counts, x, c.counts[x] + 1);
      } else {
        SumOverFresh(c.keys, c.counts, x, 1);
      }
    }
  }
}
