/** Counting, searching and count-map helpers shared by the classifier and
    the aggregator: `filter(..).count()`, `iter().find(..)`, `Counter` and
    the value-summing merge of two count maps. */
module Collections {
  import opened Wrappers

  /** Number of elements of `xs` satisfying `p`. */
  function Count<T>(xs: seq<T>, p: T -> bool): (n: nat)
    ensures n <= |xs|
  {
    if |xs| == 0 then 0 else (if p(xs[0]) then 1 else 0) + Count(xs[1..], p)
  }

  lemma {:induction false} CountAppend<T>(xs: seq<T>, ys: seq<T>, p: T -> bool)
    ensures Count(xs + ys, p) == Count(xs, p) + Count(ys, p)
  {
    if |xs| == 0 {
      assert xs + ys == ys;
    } else {
      assert (xs + ys)[1..] == xs[1..] + ys;
      CountAppend(xs[1..], ys, p);
    }
  }

  /** Two predicates no element satisfies together count at most `|xs|` between them. */
  lemma {:induction false} CountDisjoint<T>(xs: seq<T>, p: T -> bool, q: T -> bool)
    requires forall x :: !(p(x) && q(x))
    ensures Count(xs, p) + Count(xs, q) <= |xs|
  {
    if |xs| > 0 {
      CountDisjoint(xs[1..], p, q);
    }
  }

  /** A weaker predicate counts at least as many elements. */
  lemma {:induction false} CountMonotone<T>(xs: seq<T>, p: T -> bool, q: T -> bool)
    requires forall i :: 0 <= i < |xs| ==> p(xs[i]) ==> q(xs[i])
    ensures Count(xs, p) <= Count(xs, q)
  {
    if |xs| > 0 {
      CountMonotone(xs[1..], p, q);
    }
  }

  lemma {:induction false} CountAll<T>(xs: seq<T>, p: T -> bool)
    requires forall i :: 0 <= i < |xs| ==> p(xs[i])
    ensures Count(xs, p) == |xs|
  {
    if |xs| > 0 {
      CountAll(xs[1..], p);
    }
  }

  lemma {:induction false} CountNone<T>(xs: seq<T>, p: T -> bool)
    requires forall i :: 0 <= i < |xs| ==> !p(xs[i])
    ensures Count(xs, p) == 0
  {
    if |xs| > 0 {
      CountNone(xs[1..], p);
    }
  }

  /** A count depends only on the multiset of elements, not their order. */
  lemma {:induction false} CountPermutation<T>(xs: seq<T>, ys: seq<T>, p: T -> bool)
    requires multiset(xs) == multiset(ys)
    ensures Count(xs, p) == Count(ys, p)
    decreases |xs|
  {
    if |xs| == 0 {
      assert |ys| == |multiset(ys)| == 0;
    } else {
      var x := xs[0];
      var j := PermutationSplit(xs, ys);
      CountPermutation(xs[1..], ys[..j] + ys[j + 1..], p);
      CountAppend(ys[..j] + [x], ys[j + 1..], p);
      CountAppend(ys[..j], [x], p);
      CountAppend(ys[..j], ys[j + 1..], p);
    }
  }

  /** The first element of `xs` sits at some position `j` of a permutation
      `ys`; removing it from both leaves permutations of each other. */
  lemma PermutationSplit<T>(xs: seq<T>, ys: seq<T>) returns (j: nat)
    requires |xs| > 0 && multiset(xs) == multiset(ys)
    ensures j < |ys| && ys[j] == xs[0]
    ensures ys == ys[..j] + [xs[0]] + ys[j + 1..]
    ensures multiset(xs[1..]) == multiset(ys[..j] + ys[j + 1..])
  {
    var x := xs[0];
    assert x in multiset(ys);
    j :| 0 <= j < |ys| && ys[j] == x;
    var rest := ys[..j] + ys[j + 1..];
    assert ys == ys[..j] + [x] + ys[j + 1..];
    assert xs == [x] + xs[1..];
    assert multiset(ys) == multiset(ys[..j]) + multiset{x} + multiset(ys[j + 1..]);
    assert multiset(rest) == multiset(ys[..j]) + multiset(ys[j + 1..]);
    assert multiset(xs[1..]) == multiset(xs) - multiset{x};
    assert multiset(ys) - multiset{x} == multiset(rest);
  }

  /** Index of the first element satisfying `p`, the one `iter().find(p)` yields. */
  function Find<T>(xs: seq<T>, p: T -> bool): (r: Option<nat>)
    ensures r.Some? ==> r.value < |xs| && p(xs[r.value])
    ensures r.Some? ==> forall j :: 0 <= j < r.value ==> !p(xs[j])
    ensures r.None? ==> forall j :: 0 <= j < |xs| ==> !p(xs[j])
  {
    if |xs| == 0 then None
    else if p(xs[0]) then Some(0)
    else match Find(xs[1..], p)
      case None => None
      case Some(i) => Some(i + 1)
  }

  /** The count stored under `k`, a missing key read as 0 (`or_insert(0)`). */
  function Get<K(!new)>(m: map<K, nat>, k: K): nat
  {
    if k in m then m[k] else 0
  }

  /** Adds `v` to the entry for `k`, creating it when absent: the
      `entry(k).and_modify(|e| *e += v).or_insert(v)` step. */
  function AddEntry<K(!new)>(m: map<K, nat>, k: K, v: nat): (r: map<K, nat>)
    ensures r.Keys == m.Keys + {k}
    ensures Get(r, k) == Get(m, k) + v
    ensures forall k' :: k' != k ==> Get(r, k') == Get(m, k')
  {
    if k in m then m[k := m[k] + v] else m[k := v]
  }

  /** The merge of two count maps: every key of either, values summed. */
  function MapAdd<K(!new)>(a: map<K, nat>, b: map<K, nat>): (r: map<K, nat>)
    ensures r.Keys == a.Keys + b.Keys
    ensures forall k :: Get(r, k) == Get(a, k) + Get(b, k)
  {
    map k | k in a.Keys + b.Keys :: Get(a, k) + Get(b, k)
  }

  /** Count maps with the same keys and the same counts are equal. */
  lemma MapExtensionality<K(!new)>(a: map<K, nat>, b: map<K, nat>)
    requires a.Keys == b.Keys
    requires forall k :: Get(a, k) == Get(b, k)
    ensures a == b
  {
    forall k | k in a
      ensures a[k] == b[k]
    {
      assert Get(a, k) == Get(b, k);
    }
  }

  /** A count map with the keys of either map and the summed counts is their merge. */
  lemma IsMapAdd<K(!new)>(r: map<K, nat>, a: map<K, nat>, b: map<K, nat>)
    requires forall k :: k in r <==> k in a || k in b
    requires forall k :: Get(r, k) == Get(a, k) + Get(b, k)
    ensures r == MapAdd(a, b)
  {
    MapExtensionality(r, MapAdd(a, b));
  }

  lemma MapAddIdentity<K(!new)>(a: map<K, nat>)
    ensures MapAdd(map[], a) == a
    ensures MapAdd(a, map[]) == a
  {
  }

  lemma MapAddAssociative<K(!new)>(a: map<K, nat>, b: map<K, nat>, c: map<K, nat>)
    ensures MapAdd(MapAdd(a, b), c) == MapAdd(a, MapAdd(b, c))
  {
    var l := MapAdd(MapAdd(a, b), c);
    var r := MapAdd(a, MapAdd(b, c));
    assert forall k | k in l :: l[k] == Get(l, k) == Get(r, k) == r[k];
  }

  lemma MapAddCommutative<K(!new)>(a: map<K, nat>, b: map<K, nat>)
    ensures MapAdd(a, b) == MapAdd(b, a)
  {
    var l := MapAdd(a, b);
    var r := MapAdd(b, a);
    assert forall k | k in l :: l[k] == Get(l, k) == Get(r, k) == r[k];
  }

  /** Swapping the inner pair of a four-way merge. */
  lemma MapAddInterchange<K(!new)>(a: map<K, nat>, b: map<K, nat>, c: map<K, nat>, d: map<K, nat>)
    ensures MapAdd(MapAdd(a, b), MapAdd(c, d)) == MapAdd(MapAdd(a, c), MapAdd(b, d))
  {
    var l := MapAdd(MapAdd(a, b), MapAdd(c, d));
    var r := MapAdd(MapAdd(a, c), MapAdd(b, d));
    assert forall k | k in l :: l[k] == Get(l, k) == Get(r, k) == r[k];
  }

  /** `iter().fold(HashMap::new(), hashmap_combine)`: a left fold of merges. */
  function SumMaps<K(!new)>(ms: seq<map<K, nat>>): map<K, nat>
  {
    if |ms| == 0 then map[] else MapAdd(SumMaps(ms[..|ms| - 1]), ms[|ms| - 1])
  }

  /** Σ_i Get(ms[i], k): how many `k` the maps hold between them. */
  function Column<K(!new)>(ms: seq<map<K, nat>>, k: K): nat
  {
    if |ms| == 0 then 0 else Get(ms[0], k) + Column(ms[1..], k)
  }

  lemma {:induction false} ColumnAppend<K(!new)>(xs: seq<map<K, nat>>, ys: seq<map<K, nat>>, k: K)
    ensures Column(xs + ys, k) == Column(xs, k) + Column(ys, k)
  {
    if |xs| == 0 {
      assert xs + ys == ys;
    } else {
      assert (xs + ys)[1..] == xs[1..] + ys;
      ColumnAppend(xs[1..], ys, k);
    }
  }

  /** The fold of merges holds, under every key, the sum of that key's counts. */
  lemma {:induction false} SumMapsColumn<K(!new)>(ms: seq<map<K, nat>>, k: K)
    ensures Get(SumMaps(ms), k) == Column(ms, k)
    ensures k in SumMaps(ms) <==> exists i :: 0 <= i < |ms| && k in ms[i]
  {
    if |ms| > 0 {
      var init := ms[..|ms| - 1];
      SumMapsColumn(init, k);
      ColumnAppend(init, [ms[|ms| - 1]], k);
      assert init + [ms[|ms| - 1]] == ms;
      assert Column([ms[|ms| - 1]], k) == Get(ms[|ms| - 1], k);
      if k in SumMaps(ms) && k !in ms[|ms| - 1] {
        var i :| 0 <= i < |init| && k in init[i];
        assert k in ms[i];
      }
      if exists i :: 0 <= i < |ms| && k in ms[i] {
        var i :| 0 <= i < |ms| && k in ms[i];
        if i < |ms| - 1 {
          assert k in init[i];
        }
      }
    }
  }

  /** Folding the concatenation of two lists of maps merges the two folds. */
  lemma {:induction false} SumMapsAppend<K(!new)>(xs: seq<map<K, nat>>, ys: seq<map<K, nat>>)
    ensures SumMaps(xs + ys) == MapAdd(SumMaps(xs), SumMaps(ys))
    decreases |ys|
  {
    if |ys| == 0 {
      assert xs + ys == xs;
      MapAddIdentity(SumMaps(xs));
    } else {
      var last := ys[|ys| - 1];
      var init := ys[..|ys| - 1];
      assert (xs + ys)[..|xs + ys| - 1] == xs + init;
      SumMapsAppend(xs, init);
      MapAddAssociative(SumMaps(xs), SumMaps(init), last);
    }
  }

  /** `Counter` collected from a sequence: each element's number of occurrences. */
  function Tally<K(!new)>(xs: seq<K>): (m: map<K, nat>)
    ensures m.Keys == set x | x in xs
    ensures forall k :: Get(m, k) == multiset(xs)[k]
  {
    if |xs| == 0 then map[]
    else
      var init := xs[..|xs| - 1];
      assert xs == init + [xs[|xs| - 1]];
      AddEntry(Tally(init), xs[|xs| - 1], 1)
  }

  /** Counting a concatenation merges the two counts. */
  lemma TallyAppend<K(!new)>(xs: seq<K>, ys: seq<K>)
    ensures Tally(xs + ys) == MapAdd(Tally(xs), Tally(ys))
  {
    var l := Tally(xs + ys);
    var r := MapAdd(Tally(xs), Tally(ys));
    assert multiset(xs + ys) == multiset(xs) + multiset(ys);
    forall k
      ensures k in l <==> k in r
    {
      assert k in xs + ys <==> k in xs || k in ys;
    }
    MapExtensionality(l, r);
  }

  /** An arbitrary key of a non-empty map, fixed once so that sums can be unfolded. */
  ghost function Pick<K>(s: set<K>): (k: K)
    requires s != {}
    ensures k in s
  {
    var k :| k in s; k
  }

  /** Sum of all values of a count map. */
  ghost function Total<K(!new)>(m: map<K, nat>): nat
    decreases m.Keys
  {
    if m.Keys == {} then 0
    else
      var k := Pick(m.Keys);
      assert (m - {k}).Keys < m.Keys;
      m[k] + Total(m - {k})
  }

  lemma {:induction false} TotalRemove<K(!new)>(m: map<K, nat>, k: K)
    requires k in m
    ensures Total(m) == m[k] + Total(m - {k})
    decreases m.Keys
  {
    var k' := Pick(m.Keys);
    if k' != k {
      var m1 := m - {k'};
      var m2 := m - {k};
      assert m1.Keys < m.Keys;
      TotalRemove(m1, k);
      assert m2.Keys < m.Keys;
      TotalRemove(m2, k');
      assert m1 - {k} == m2 - {k'};
    }
  }

  /** Adding `v` under one key adds `v` to the total. */
  lemma AddEntryTotal<K(!new)>(m: map<K, nat>, k: K, v: nat)
    ensures Total(AddEntry(m, k, v)) == Total(m) + v
  {
    var r := AddEntry(m, k, v);
    TotalRemove(r, k);
    assert r - {k} == m - {k};
    if k in m {
      TotalRemove(m, k);
    } else {
      assert m - {k} == m;
    }
  }

  /** A `Counter`'s counts add up to the number of elements counted. */
  lemma {:induction false} TallyTotal<K(!new)>(xs: seq<K>)
    ensures Total(Tally(xs)) == |xs|
  {
    if |xs| > 0 {
      var init := xs[..|xs| - 1];
      TallyTotal(init);
      AddEntryTotal(Tally(init), xs[|xs| - 1], 1);
    }
  }
}
