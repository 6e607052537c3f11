/** Shared vocabulary: optional values, counting, Python's `max(key=...)`,
    and Python dictionaries, which keep their keys in insertion order. */
module Common {

  datatype Option<T> = None | Some(value: T)

  /** `d.get(k, 0)`, or a read of a `defaultdict(int)`. */
  function Get<K>(m: map<K, int>, k: K): int
  {
    if k in m then m[k] else 0
  }

  function Min(a: nat, b: nat): nat
  {
    if a <= b then a else b
  }

  /** Number of occurrences of `c` among the first `n` elements of `s`. */
  function CountIn<T(==)>(s: seq<T>, c: T, n: nat): nat
    requires n <= |s|
  {
    if n == 0 then 0 else CountIn(s, c, n - 1) + (if s[n - 1] == c then 1 else 0)
  }

  /** `s.count(c)`, or `Counter(s)[c]`. */
  function Occ<T(==)>(s: seq<T>, c: T): nat
  {
    CountIn(s, c, |s|)
  }

  lemma {:induction false} CountInBounds<T>(s: seq<T>, c: T, n: nat)
    requires n <= |s|
    ensures CountIn(s, c, n) <= n
    ensures CountIn(s, c, n) > 0 <==> exists j :: 0 <= j < n && s[j] == c
  {
    if n > 0 {
      CountInBounds(s, c, n - 1);
    }
  }

  lemma OccMember<T>(s: seq<T>, c: T)
    ensures Occ(s, c) > 0 <==> c in s
    ensures Occ(s, c) <= |s|
  {
    CountInBounds(s, c, |s|);
  }

  lemma {:induction false} CountInMono<T>(s: seq<T>, c: T, m: nat, n: nat)
    requires m <= n <= |s|
    ensures CountIn(s, c, m) <= CountIn(s, c, n)
    decreases n
  {
    if m < n {
      CountInMono(s, c, m, n - 1);
    }
  }

  lemma {:induction false} OccAppend<T>(a: seq<T>, b: seq<T>, c: T)
    ensures Occ(a + b, c) == Occ(a, c) + Occ(b, c)
    decreases |b|
  {
    if b == [] {
      assert a + b == a;
    } else {
      var b' := b[..|b| - 1];
      assert (a + b)[..|a + b| - 1] == a + b';
      OccAppend(a, b', c);
      CountInPrefix(a + b, c, |a + b| - 1);
      CountInPrefix(b, c, |b| - 1);
    }
  }

  /** Counting in a prefix is counting in the prefix's own sequence. */
  lemma {:induction false} CountInPrefix<T>(s: seq<T>, c: T, n: nat)
    requires n <= |s|
    ensures CountIn(s, c, n) == Occ(s[..n], c)
  {
    if n > 0 {
      CountInPrefix(s, c, n - 1);
      assert s[..n][..n - 1] == s[..n - 1];
      CountInSame(s[..n], s, c, n - 1);
    }
  }

  lemma {:induction false} CountInSame<T>(s: seq<T>, t: seq<T>, c: T, n: nat)
    requires n <= |s| && n <= |t| && s[..n] == t[..n]
    ensures CountIn(s, c, n) == CountIn(t, c, n)
  {
    if n > 0 {
      assert s[n - 1] == s[..n][n - 1] == t[..n][n - 1] == t[n - 1];
      assert s[..n - 1] == s[..n][..n - 1] && t[..n - 1] == t[..n][..n - 1];
      CountInSame(s, t, c, n - 1);
    }
  }

  /** Python's `max(xs, key=key)`: the first element whose key is maximal. */
  function FirstMax<T>(xs: seq<T>, key: T --> int): (k: nat)
    requires |xs| > 0 && forall j :: 0 <= j < |xs| ==> key.requires(xs[j])
    ensures k < |xs|
    ensures forall j :: 0 <= j < |xs| ==> key(xs[j]) <= key(xs[k])
    ensures forall j :: 0 <= j < k ==> key(xs[j]) < key(xs[k])
  {
    if |xs| == 1 then 0
    else
      var k := FirstMax(xs[..|xs| - 1], key);
      if key(xs[k]) < key(xs[|xs| - 1]) then |xs| - 1 else k
  }

  /** Only one index is a first maximum. */
  lemma FirstMaxUnique<T>(xs: seq<T>, key: T --> int, b: nat)
    requires |xs| > 0 && forall j :: 0 <= j < |xs| ==> key.requires(xs[j])
    requires b < |xs| && forall j :: 0 <= j < |xs| ==> key(xs[j]) <= key(xs[b])
    requires forall j :: 0 <= j < b ==> key(xs[j]) < key(xs[b])
    ensures b == FirstMax(xs, key)
  {
    var k := FirstMax(xs, key);
    assert key(xs[k]) <= key(xs[b]) && key(xs[b]) <= key(xs[k]);
  }

  /* ---------------------------------------------------------------------
     A Python dictionary with natural-number values, as the list of its
     items in insertion order.
     --------------------------------------------------------------------- */

  type Counts<K> = seq<(K, nat)>

  function Keys<K>(s: Counts<K>): (ks: seq<K>)
    ensures |ks| == |s| && forall i :: 0 <= i < |s| ==> ks[i] == s[i].0
  {
    if s == [] then [] else [s[0].0] + Keys(s[1..])
  }

  predicate DistinctKeys<K(==)>(s: Counts<K>)
  {
    forall i, j :: 0 <= i < j < |s| ==> s[i].0 != s[j].0
  }

  /** The sum of the values stored under `k`; on a dictionary (distinct
      keys) this is `d[k]` for a `defaultdict(int)`. */
  function Total<K(==)>(s: Counts<K>, k: K): nat
  {
    if s == [] then 0 else (if s[0].0 == k then s[0].1 else 0) + Total(s[1..], k)
  }

  /** `sum(d.values())` */
  function Sum<K>(s: Counts<K>): nat
  {
    if s == [] then 0 else s[0].1 + Sum(s[1..])
  }

  /** `d[k] += v` on a `defaultdict(int)`: an existing key keeps its place,
      a new key goes to the end. */
  function AddTo<K(==)>(s: Counts<K>, k: K, v: nat): Counts<K>
  {
    if s == [] then [(k, v)]
    else if s[0].0 == k then [(k, s[0].1 + v)] + s[1..]
    else [s[0]] + AddTo(s[1..], k, v)
  }

  lemma {:induction false} AddToFacts<K>(s: Counts<K>, k: K, v: nat)
    ensures Keys(AddTo(s, k, v)) == if k in Keys(s) then Keys(s) else Keys(s) + [k]
    ensures forall c :: Total(AddTo(s, k, v), c) == Total(s, c) + (if c == k then v else 0)
    ensures Sum(AddTo(s, k, v)) == Sum(s) + v
  {
    if s != [] && s[0].0 != k {
      AddToFacts(s[1..], k, v);
      assert Keys(s) == [s[0].0] + Keys(s[1..]);
    }
  }

  lemma AddToDistinct<K>(s: Counts<K>, k: K, v: nat)
    requires DistinctKeys(s)
    ensures DistinctKeys(AddTo(s, k, v))
  {
    AddToFacts(s, k, v);
    var t := AddTo(s, k, v);
    assert Keys(t) == if k in Keys(s) then Keys(s) else Keys(s) + [k];
    forall i, j | 0 <= i < j < |t| ensures t[i].0 != t[j].0 {
      assert Keys(t)[i] == t[i].0 && Keys(t)[j] == t[j].0;
      if j == |s| {
        assert k !in Keys(s);
        assert Keys(s)[i] == s[i].0;
      } else {
        assert Keys(s)[i] == s[i].0 && Keys(s)[j] == s[j].0;
      }
    }
  }

  /** On a dictionary, every stored value is the dictionary's value for its key. */
  lemma {:induction false} EntryIsTotal<K>(s: Counts<K>, j: nat)
    requires DistinctKeys(s) && j < |s|
    ensures s[j].1 == Total(s, s[j].0)
  {
    if j == 0 {
      TotalAbsent(s[1..], s[0].0);
    } else {
      EntryIsTotal(s[1..], j - 1);
    }
  }

  lemma {:induction false} TotalAbsent<K>(s: Counts<K>, k: K)
    requires k !in Keys(s)
    ensures Total(s, k) == 0
  {
    if s != [] {
      assert Keys(s)[0] == s[0].0;
      assert Keys(s[1..]) == Keys(s)[1..];
      TotalAbsent(s[1..], k);
    }
  }

  lemma {:induction false} TotalPresent<K>(s: Counts<K>, k: K)
    requires forall i :: 0 <= i < |s| ==> s[i].1 > 0
    ensures Total(s, k) > 0 <==> k in Keys(s)
  {
    if s == [] {
    } else {
      assert Keys(s) == [s[0].0] + Keys(s[1..]);
      TotalPresent(s[1..], k);
    }
  }

  lemma {:induction false} AddToPositive<K>(s: Counts<K>, k: K, v: nat)
    requires v > 0 && forall i :: 0 <= i < |s| ==> s[i].1 > 0
    ensures forall i :: 0 <= i < |AddTo(s, k, v)| ==> AddTo(s, k, v)[i].1 > 0
  {
    if s != [] && s[0].0 != k {
      AddToPositive(s[1..], k, v);
    }
  }

  /** `counts = defaultdict(int); for x in xs: counts[x] += 1` */
  function Histogram<K(==)>(xs: seq<K>): Counts<K>
  {
    if xs == [] then [] else AddTo(Histogram(xs[..|xs| - 1]), xs[|xs| - 1], 1)
  }

  lemma {:induction false} HistogramShape<K>(xs: seq<K>)
    ensures DistinctKeys(Histogram(xs))
    ensures forall i :: 0 <= i < |Histogram(xs)| ==> Histogram(xs)[i].1 > 0
    ensures Sum(Histogram(xs)) == |xs|
  {
    if xs != [] {
      var p, x := xs[..|xs| - 1], xs[|xs| - 1];
      HistogramShape(p);
      AddToFacts(Histogram(p), x, 1);
      AddToDistinct(Histogram(p), x, 1);
      AddToPositive(Histogram(p), x, 1);
    }
  }

  lemma {:induction false} HistogramTotal<K>(xs: seq<K>)
    ensures forall c :: Total(Histogram(xs), c) == Occ(xs, c)
  {
    if xs != [] {
      var p, x := xs[..|xs| - 1], xs[|xs| - 1];
      HistogramTotal(p);
      AddToFacts(Histogram(p), x, 1);
      assert xs == p + [x];
      forall c ensures Total(Histogram(xs), c) == Occ(xs, c) {
        OccAppend(p, [x], c);
        assert CountIn([x], c, 0) == 0;
      }
    }
  }

  /** A histogram is a dictionary whose keys are the distinct items, each
      stored with its number of occurrences, and whose values add up to the
      number of items. */
  lemma HistogramFacts<K>(xs: seq<K>)
    ensures DistinctKeys(Histogram(xs))
    ensures forall i :: 0 <= i < |Histogram(xs)| ==> Histogram(xs)[i].1 > 0
    ensures forall c :: Total(Histogram(xs), c) == Occ(xs, c)
    ensures forall c :: c in Keys(Histogram(xs)) <==> c in xs
    ensures Sum(Histogram(xs)) == |xs|
  {
    var h := Histogram(xs);
    HistogramShape(xs);
    HistogramTotal(xs);
    forall c ensures c in Keys(h) <==> c in xs {
      TotalPresent(h, c);
      OccMember(xs, c);
    }
  }

  /** A histogram has a single key exactly when the items are not empty
      and all equal. */
  lemma SingleKeyHistogram<K>(xs: seq<K>)
    ensures |Histogram(xs)| == 1 <==> |xs| > 0 && forall k :: 0 <= k < |xs| ==> xs[k] == xs[0]
  {
    var h := Histogram(xs);
    HistogramFacts(xs);
    if |h| == 1 {
      assert Keys(h) == [h[0].0];
      forall k | 0 <= k < |xs| ensures xs[k] == xs[0] {
        assert xs[k] in Keys(h) && xs[0] in Keys(h);
      }
    }
    if |xs| > 0 && forall k :: 0 <= k < |xs| ==> xs[k] == xs[0] {
      assert xs[0] in Keys(h);
      forall i | 0 <= i < |h| ensures h[i].0 == xs[0] {
        assert h[i].0 in Keys(h);
        var k :| 0 <= k < |xs| && xs[k] == h[i].0;
      }
    }
  }

  lemma HistogramEntry<K>(xs: seq<K>, j: nat)
    requires j < |Histogram(xs)|
    ensures Histogram(xs)[j].1 == Occ(xs, Histogram(xs)[j].0) && Histogram(xs)[j].0 in xs
  {
    var h := Histogram(xs);
    HistogramFacts(xs);
    EntryIsTotal(h, j);
    assert h[j].0 in Keys(h);
  }

  lemma HistogramHas<K>(xs: seq<K>, k: nat) returns (j: nat)
    requires k < |xs|
    ensures j < |Histogram(xs)| && Histogram(xs)[j].0 == xs[k]
  {
    var h := Histogram(xs);
    HistogramFacts(xs);
    assert xs[k] in Keys(h);
    j :| 0 <= j < |h| && Keys(h)[j] == xs[k];
  }

  /** The largest class of a histogram: no item occurs more often than
      the largest count, some item occurs exactly that often, and the
      largest count lies between 1 and the number of items. */
  lemma HistogramMax<K>(xs: seq<K>)
    requires xs != []
    ensures forall k :: 0 <= k < |xs| ==> Occ(xs, xs[k]) <= MaxCount(Histogram(xs))
    ensures exists k :: 0 <= k < |xs| && Occ(xs, xs[k]) == MaxCount(Histogram(xs))
    ensures 1 <= MaxCount(Histogram(xs)) <= |xs|
  {
    var h := Histogram(xs);
    forall k | 0 <= k < |xs| ensures Occ(xs, xs[k]) <= MaxCount(h) {
      var j := HistogramHas(xs, k);
      HistogramEntry(xs, j);
    }
    var j0 := HistogramHas(xs, 0);
    var j :| 0 <= j < |h| && h[j].1 == MaxCount(h);
    HistogramEntry(xs, j);
    var k :| 0 <= k < |xs| && xs[k] == h[j].0;
    OccMember(xs, xs[k]);
  }

  /** `list(d.values())` */
  function Values<K>(s: Counts<K>): (vs: seq<nat>)
    ensures |vs| == |s| && forall i :: 0 <= i < |s| ==> vs[i] == s[i].1
  {
    if s == [] then [] else [s[0].1] + Values(s[1..])
  }

  /** `max(d.values())`, and 0 for an empty dictionary. */
  function MaxCount<K>(s: Counts<K>): (m: nat)
    ensures forall i :: 0 <= i < |s| ==> s[i].1 <= m
    ensures s != [] ==> exists i :: 0 <= i < |s| && s[i].1 == m
    ensures s == [] ==> m == 0
  {
    if s == [] then 0
    else
      var r := MaxCount(s[1..]);
      if s[0].1 >= r then s[0].1 else (assert s[1..] != []; r)
  }

  /** `del d[k]` when `k in d`, and nothing otherwise. */
  function Remove<K(==)>(s: Counts<K>, k: K): Counts<K>
  {
    if s == [] then []
    else (if s[0].0 == k then [] else [s[0]]) + Remove(s[1..], k)
  }

  /** Removal drops the key, keeps every other key with its value, and
      keeps a dictionary a dictionary. */
  lemma {:induction false} RemoveFacts<K>(s: Counts<K>, k: K)
    ensures forall c :: c in Keys(Remove(s, k)) <==> c != k && c in Keys(s)
    ensures forall c :: Total(Remove(s, k), c) == if c == k then 0 else Total(s, c)
    ensures DistinctKeys(s) ==> DistinctKeys(Remove(s, k))
  {
    if s != [] {
      RemoveFacts(s[1..], k);
      var r := Remove(s[1..], k);
      assert Keys(s) == [s[0].0] + Keys(s[1..]);
      if s[0].0 != k {
        assert Remove(s, k) == [s[0]] + r;
        assert Keys(Remove(s, k)) == [s[0].0] + Keys(r);
        if DistinctKeys(s) {
          assert DistinctKeys(s[1..]);
          ConsDistinct(s[0], r);
        }
      } else {
        assert Remove(s, k) == r;
        if DistinctKeys(s) {
          assert DistinctKeys(s[1..]);
        }
      }
    }
  }

  /** `for key, value in items: d[key] += value` */
  function AddAll<K(==)>(s: Counts<K>, items: Counts<K>): Counts<K>
    decreases |items|
  {
    if items == [] then s else AddAll(AddTo(s, items[0].0, items[0].1), items[1..])
  }

  /** Merging adds the merged values key by key and keeps a dictionary a
      dictionary. */
  lemma {:induction false} AddAllFacts<K>(s: Counts<K>, items: Counts<K>)
    requires DistinctKeys(s)
    ensures DistinctKeys(AddAll(s, items))
    ensures forall c :: Total(AddAll(s, items), c) == Total(s, c) + Total(items, c)
    decreases |items|
  {
    if items != [] {
      AddToFacts(s, items[0].0, items[0].1);
      AddToDistinct(s, items[0].0, items[0].1);
      AddAllFacts(AddTo(s, items[0].0, items[0].1), items[1..]);
    }
  }

  /** Every value doubled, keys in place. */
  function Double<K>(s: Counts<K>): Counts<K>
  {
    seq(|s|, i requires 0 <= i < |s| => (s[i].0, 2 * s[i].1))
  }

  lemma {:induction false} DoubleFacts<K>(s: Counts<K>)
    ensures |Double(s)| == |s| && Keys(Double(s)) == Keys(s)
    ensures forall c :: Total(Double(s), c) == 2 * Total(s, c)
  {
    if s != [] {
      DoubleFacts(s[1..]);
      assert Double(s)[1..] == Double(s[1..]);
    }
  }

  /* ---------------------------------------------------------------------
     Python's `sorted` by value, which is stable; with `reverse=True` items
     of equal value still keep their original order.
     --------------------------------------------------------------------- */

  predicate InOrder<K>(x: (K, nat), y: (K, nat), descending: bool)
  {
    if descending then x.1 >= y.1 else x.1 <= y.1
  }

  predicate SortedByCount<K>(s: Counts<K>, descending: bool)
  {
    forall i, j :: 0 <= i < j < |s| ==> InOrder(s[i], s[j], descending)
  }

  /** Puts `x` in front of the first item it may precede; since `x` comes
      from earlier in the input than every item of `s`, this keeps ties in
      input order. */
  function Insert<K>(x: (K, nat), s: Counts<K>, descending: bool): Counts<K>
  {
    if s == [] || InOrder(x, s[0], descending) then [x] + s
    else [s[0]] + Insert(x, s[1..], descending)
  }

  function SortByCount<K>(s: Counts<K>, descending: bool): Counts<K>
  {
    if s == [] then [] else Insert(s[0], SortByCount(s[1..], descending), descending)
  }

  lemma {:induction false} InsertSorted<K>(x: (K, nat), s: Counts<K>, descending: bool)
    requires SortedByCount(s, descending)
    ensures SortedByCount(Insert(x, s, descending), descending)
  {
    if s == [] || InOrder(x, s[0], descending) {
      assert forall i :: 0 <= i < |s| ==> InOrder(s[0], s[i], descending);
    } else {
      InsertSorted(x, s[1..], descending);
      InsertElements(x, s[1..], descending);
      var t := Insert(x, s[1..], descending);
      forall j | 0 <= j < |t| ensures InOrder(s[0], t[j], descending) {
        if t[j] != x {
          var k :| 0 <= k < |s[1..]| && s[1..][k] == t[j];
          assert s[k + 1] == t[j];
        }
      }
      assert Insert(x, s, descending) == [s[0]] + t;
    }
  }

  lemma {:induction false} InsertMultiset<K>(x: (K, nat), s: Counts<K>, descending: bool)
    ensures multiset(Insert(x, s, descending)) == multiset(s) + multiset{x}
  {
    if !(s == [] || InOrder(x, s[0], descending)) {
      InsertMultiset(x, s[1..], descending);
      assert s == [s[0]] + s[1..];
    }
  }

  lemma {:induction false} InsertElements<K>(x: (K, nat), s: Counts<K>, descending: bool)
    ensures forall j :: 0 <= j < |Insert(x, s, descending)| ==>
      Insert(x, s, descending)[j] == x || exists k :: 0 <= k < |s| && s[k] == Insert(x, s, descending)[j]
  {
    if !(s == [] || InOrder(x, s[0], descending)) {
      InsertElements(x, s[1..], descending);
      var t := Insert(x, s[1..], descending);
      forall j | 1 <= j < |t| + 1
        ensures ([s[0]] + t)[j] == x || exists k :: 0 <= k < |s| && s[k] == ([s[0]] + t)[j]
      {
        if t[j - 1] != x {
          var k :| 0 <= k < |s[1..]| && s[1..][k] == t[j - 1];
          assert s[k + 1] == ([s[0]] + t)[j];
        }
      }
      assert s[0] == ([s[0]] + t)[0];
    } else {
      forall j | 1 <= j < |s| + 1
        ensures ([x] + s)[j] == x || exists k :: 0 <= k < |s| && s[k] == ([x] + s)[j]
      {
        assert s[j - 1] == ([x] + s)[j];
      }
    }
  }

  /** The sort is an ordered permutation of its input. */
  lemma {:induction false} SortFacts<K>(s: Counts<K>, descending: bool)
    ensures SortedByCount(SortByCount(s, descending), descending)
    ensures multiset(SortByCount(s, descending)) == multiset(s)
  {
    if s != [] {
      SortFacts(s[1..], descending);
      InsertSorted(s[0], SortByCount(s[1..], descending), descending);
      InsertMultiset(s[0], SortByCount(s[1..], descending), descending);
      assert s == [s[0]] + s[1..];
    }
  }

  lemma {:induction false} InsertKeys<K>(x: (K, nat), s: Counts<K>, descending: bool)
    ensures |Insert(x, s, descending)| == |s| + 1
    ensures forall k :: k in Keys(Insert(x, s, descending)) <==> k == x.0 || k in Keys(s)
    ensures forall k :: Total(Insert(x, s, descending), k) == Total(s, k) + (if x.0 == k then x.1 else 0)
    ensures DistinctKeys(s) && x.0 !in Keys(s) ==> DistinctKeys(Insert(x, s, descending))
  {
    var t := Insert(x, s, descending);
    if s == [] || InOrder(x, s[0], descending) {
      assert Keys(t) == [x.0] + Keys(s);
      if DistinctKeys(s) && x.0 !in Keys(s) {
        ConsDistinct(x, s);
      }
    } else {
      var t' := Insert(x, s[1..], descending);
      InsertKeys(x, s[1..], descending);
      assert t == [s[0]] + t';
      assert Keys(s) == [s[0].0] + Keys(s[1..]);
      assert Keys(t) == [s[0].0] + Keys(t');
      if DistinctKeys(s) && x.0 !in Keys(s) {
        assert DistinctKeys(s[1..]);
        ConsDistinct(s[0], t');
      }
    }
  }

  lemma ConsDistinct<K>(x: (K, nat), s: Counts<K>)
    requires DistinctKeys(s) && x.0 !in Keys(s)
    ensures DistinctKeys([x] + s)
  {
    forall i, j | 0 <= i < j < |s| + 1 ensures ([x] + s)[i].0 != ([x] + s)[j].0 {
      if i == 0 {
        assert Keys(s)[j - 1] == ([x] + s)[j].0;
      }
    }
  }

  /** The sort keeps the keys, the value under each key and distinctness. */
  lemma {:induction false} SortKeys<K>(s: Counts<K>, descending: bool)
    ensures |SortByCount(s, descending)| == |s|
    ensures forall k :: k in Keys(SortByCount(s, descending)) <==> k in Keys(s)
    ensures forall k :: Total(SortByCount(s, descending), k) == Total(s, k)
    ensures DistinctKeys(s) ==> DistinctKeys(SortByCount(s, descending))
  {
    if s != [] {
      SortKeys(s[1..], descending);
      InsertKeys(s[0], SortByCount(s[1..], descending), descending);
      assert Keys(s) == [s[0].0] + Keys(s[1..]);
      if DistinctKeys(s) {
        assert DistinctKeys(s[1..]);
      }
    }
  }

  /** Every item of the sorted dictionary is a key of the original with
      its value there. */
  lemma SortedEntries<K>(s: Counts<K>, descending: bool)
    requires DistinctKeys(s)
    ensures DistinctKeys(SortByCount(s, descending)) && SortedByCount(SortByCount(s, descending), descending)
    ensures forall a :: 0 <= a < |SortByCount(s, descending)| ==>
      SortByCount(s, descending)[a].0 in Keys(s) && SortByCount(s, descending)[a].1 == Total(s, SortByCount(s, descending)[a].0)
  {
    var t := SortByCount(s, descending);
    SortKeys(s, descending);
    SortFacts(s, descending);
    forall a | 0 <= a < |t| ensures t[a].0 in Keys(s) && t[a].1 == Total(s, t[a].0) {
      assert t[a].0 in Keys(t);
      EntryIsTotal(t, a);
    }
  }
}
