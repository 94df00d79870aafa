/**
 * Frequency tables: `collections.Counter` and pandas' `value_counts`, as a
 * list of (key, count) entries in first-seen order, and the descending sort
 * by count that `sort_values(ascending=False)` and `value_counts` apply.
 */
module Counting {

  datatype Entry<K> = Entry(key: K, count: nat)

  /** The keys a table holds. */
  function Keys<K>(t: seq<Entry<K>>): set<K> {
    if t == [] then {} else {t[0].key} + Keys(t[1..])
  }

  /** No key occurs twice. */
  predicate DistinctKeys<K(==)>(t: seq<Entry<K>>) {
    forall i, j :: 0 <= i < j < |t| ==> t[i].key != t[j].key
  }

  /** The sum of all counts. */
  function Total<K>(t: seq<Entry<K>>): nat {
    if t == [] then 0 else t[0].count + Total(t[1..])
  }

  /** The count recorded for `k`, 0 when `k` has no entry. */
  function CountOf<K(==)>(t: seq<Entry<K>>, k: K): nat {
    if t == [] then 0 else if t[0].key == k then t[0].count else CountOf(t[1..], k)
  }

  /** Counts one more `k`: its entry goes up by one, or a new entry is appended. */
  function Bump<K(==)>(t: seq<Entry<K>>, k: K): (r: seq<Entry<K>>)
    ensures |r| == if k in Keys(t) then |t| else |t| + 1
  {
    if t == [] then [Entry(k, 1)]
    else if t[0].key == k then [Entry(k, t[0].count + 1)] + t[1..]
    else [t[0]] + Bump(t[1..], k)
  }

  /** Counts every key of `ks`, in first-seen order. */
  function Tally<K(==)>(ks: seq<K>): seq<Entry<K>> {
    if ks == [] then [] else Bump(Tally(ks[..|ks| - 1]), ks[|ks| - 1])
  }

  lemma {:induction false} KeysAt<K>(t: seq<Entry<K>>, k: K)
    ensures k in Keys(t) <==> exists i :: 0 <= i < |t| && t[i].key == k
  {
    if t != [] {
      KeysAt(t[1..], k);
      if exists i :: 0 <= i < |t| && t[i].key == k {
        var i :| 0 <= i < |t| && t[i].key == k;
        if i > 0 { assert t[1..][i - 1].key == k; }
      }
      if exists i :: 0 <= i < |t[1..]| && t[1..][i].key == k {
        var i :| 0 <= i < |t[1..]| && t[1..][i].key == k;
        assert t[i + 1].key == k;
      }
    }
  }

  /** A table without repeated keys is a head whose key is not repeated in its tail. */
  lemma DistinctCons<K>(t: seq<Entry<K>>)
    requires t != []
    ensures DistinctKeys(t) <==> t[0].key !in Keys(t[1..]) && DistinctKeys(t[1..])
  {
    KeysAt(t[1..], t[0].key);
    if t[0].key !in Keys(t[1..]) && DistinctKeys(t[1..]) {
      forall i, j | 0 <= i < j < |t| ensures t[i].key != t[j].key {
        if i > 0 {
          assert t[1..][i - 1] == t[i] && t[1..][j - 1] == t[j];
        } else {
          assert t[1..][j - 1] == t[j];
        }
      }
    }
    if DistinctKeys(t) {
      forall i | 0 <= i < |t[1..]| ensures t[1..][i].key != t[0].key {
        assert t[1..][i] == t[i + 1];
      }
    }
  }

  lemma {:induction false} BumpFacts<K>(t: seq<Entry<K>>, k: K)
    requires DistinctKeys(t) && forall i :: 0 <= i < |t| ==> t[i].count >= 1
    ensures var r := Bump(t, k);
      && DistinctKeys(r)
      && (forall i :: 0 <= i < |r| ==> r[i].count >= 1)
      && Keys(r) == Keys(t) + {k}
      && Total(r) == Total(t) + 1
      && forall j :: CountOf(r, j) == CountOf(t, j) + (if j == k then 1 else 0)
  {
    var r := Bump(t, k);
    if t == [] {
    } else if t[0].key == k {
      assert r[1..] == t[1..];
      DistinctCons(t);
      DistinctCons(r);
    } else {
      DistinctCons(t);
      BumpFacts(t[1..], k);
      assert r[1..] == Bump(t[1..], k);
      DistinctCons(r);
    }
  }

  /**
   * The table `Tally` builds counts each key of `ks` exactly as often as it
   * occurs, holds each key once, holds no entry with count 0, and its counts
   * add up to the number of keys counted.
   */
  lemma {:induction false} TallyCounts<K>(ks: seq<K>)
    ensures var t := Tally(ks);
      && DistinctKeys(t)
      && (forall i :: 0 <= i < |t| ==> t[i].count >= 1)
      && (forall k :: k in Keys(t) <==> k in ks)
      && Total(t) == |ks|
      && forall k :: CountOf(t, k) == multiset(ks)[k]
  {
    if ks != [] {
      var n := |ks| - 1;
      TallyCounts(ks[..n]);
      BumpFacts(Tally(ks[..n]), ks[n]);
      assert ks == ks[..n] + [ks[n]];
    }
  }

  lemma {:induction false} CountOfEntry<K>(t: seq<Entry<K>>, i: nat)
    requires DistinctKeys(t) && i < |t|
    ensures CountOf(t, t[i].key) == t[i].count
  {
    if i > 0 {
      assert t[0].key != t[i].key;
      DistinctCons(t);
      assert t[1..][i - 1] == t[i];
      CountOfEntry(t[1..], i - 1);
    }
  }

  /** Each entry of a tally carries the number of times its key occurs. */
  lemma TallyEntry<K>(ks: seq<K>, i: nat)
    requires i < |Tally(ks)|
    ensures Tally(ks)[i].count == multiset(ks)[Tally(ks)[i].key]
    ensures Tally(ks)[i].count >= 1
  {
    var t := Tally(ks);
    TallyCounts(ks);
    CountOfEntry(t, i);
    assert CountOf(t, t[i].key) == multiset(ks)[t[i].key];
  }

  /** Counts never increase from left to right. */
  predicate SortedByCount<K>(t: seq<Entry<K>>) {
    forall i, j :: 0 <= i < j < |t| ==> t[i].count >= t[j].count
  }

  /** Places `x` before the first entry with a smaller count. */
  function Insert<K>(x: Entry<K>, t: seq<Entry<K>>): seq<Entry<K>> {
    if t == [] || x.count >= t[0].count then [x] + t else [t[0]] + Insert(x, t[1..])
  }

  /** Orders a table by count, largest first. */
  function SortByCount<K>(t: seq<Entry<K>>): seq<Entry<K>> {
    if t == [] then [] else Insert(t[0], SortByCount(t[1..]))
  }

  lemma InsertPermutes<K>(x: Entry<K>, t: seq<Entry<K>>)
    ensures multiset(Insert(x, t)) == multiset(t) + multiset{x}
    ensures Keys(Insert(x, t)) == Keys(t) + {x.key}
    ensures Total(Insert(x, t)) == Total(t) + x.count
  {
    InsertMultiset(x, t);
    InsertKeys(x, t);
    InsertTotal(x, t);
  }

  lemma {:induction false} InsertMultiset<K>(x: Entry<K>, t: seq<Entry<K>>)
    ensures multiset(Insert(x, t)) == multiset(t) + multiset{x}
  {
    if t != [] && x.count < t[0].count {
      InsertMultiset(x, t[1..]);
      assert Insert(x, t) == [t[0]] + Insert(x, t[1..]);
      assert t == [t[0]] + t[1..];
    }
  }

  lemma {:induction false} InsertKeys<K>(x: Entry<K>, t: seq<Entry<K>>)
    ensures Keys(Insert(x, t)) == Keys(t) + {x.key}
  {
    var r := Insert(x, t);
    if t == [] || x.count >= t[0].count {
      assert r[1..] == t;
    } else {
      InsertKeys(x, t[1..]);
      assert r[1..] == Insert(x, t[1..]);
    }
  }

  lemma {:induction false} InsertTotal<K>(x: Entry<K>, t: seq<Entry<K>>)
    ensures Total(Insert(x, t)) == Total(t) + x.count
  {
    var r := Insert(x, t);
    if t == [] || x.count >= t[0].count {
      assert r[1..] == t;
    } else {
      InsertTotal(x, t[1..]);
      assert r[1..] == Insert(x, t[1..]);
    }
  }

  lemma {:induction false} InsertSorted<K>(x: Entry<K>, t: seq<Entry<K>>)
    requires SortedByCount(t)
    ensures SortedByCount(Insert(x, t))
  {
    var r := Insert(x, t);
    if t == [] || x.count >= t[0].count {
    } else {
      var r' := Insert(x, t[1..]);
      InsertSorted(x, t[1..]);
      InsertMultiset(x, t[1..]);
      assert r == [t[0]] + r';
      forall j | 0 <= j < |r'| ensures t[0].count >= r'[j].count {
        assert r'[j] in multiset(r');
        if r'[j] != x {
          assert r'[j] in multiset(t[1..]);
          var m :| 0 <= m < |t[1..]| && t[1..][m] == r'[j];
          assert t[m + 1] == r'[j];
        }
      }
    }
  }

  lemma {:induction false} InsertDistinct<K>(x: Entry<K>, t: seq<Entry<K>>)
    requires DistinctKeys(t) && x.key !in Keys(t)
    ensures DistinctKeys(Insert(x, t))
  {
    var r := Insert(x, t);
    DistinctCons(r);
    if t == [] || x.count >= t[0].count {
      assert r[1..] == t;
    } else {
      DistinctCons(t);
      InsertDistinct(x, t[1..]);
      InsertPermutes(x, t[1..]);
      assert r[1..] == Insert(x, t[1..]);
    }
  }

  /** Sorting by count only reorders: same entries, same keys, same total. */
  lemma {:induction false} SortByCountPermutes<K>(t: seq<Entry<K>>)
    ensures multiset(SortByCount(t)) == multiset(t)
    ensures Keys(SortByCount(t)) == Keys(t)
    ensures Total(SortByCount(t)) == Total(t)
  {
    if t != [] {
      SortByCountPermutes(t[1..]);
      InsertPermutes(t[0], SortByCount(t[1..]));
      assert t == [t[0]] + t[1..];
    }
  }

  /**
   * Sorting by count puts the largest count first and repeats no key that
   * was not repeated before.
   */
  lemma {:induction false} SortByCountOrders<K>(t: seq<Entry<K>>)
    ensures SortedByCount(SortByCount(t))
    ensures DistinctKeys(t) ==> DistinctKeys(SortByCount(t))
  {
    if t != [] {
      var s := SortByCount(t[1..]);
      SortByCountOrders(t[1..]);
      InsertSorted(t[0], s);
      if DistinctKeys(t) {
        DistinctCons(t);
        SortByCountPermutes(t[1..]);
        InsertDistinct(t[0], s);
      }
    }
  }

  /** Counting and then sorting: the table `value_counts` and `Counter` + `sort_values` produce. */
  function RankedTally<K(==)>(ks: seq<K>): seq<Entry<K>> {
    SortByCount(Tally(ks))
  }

  /**
   * A ranked tally holds each key of `ks` once, with the number of times it
   * occurs (at least 1), largest count first, and the counts add up to |ks|.
   */
  lemma RankedTallyFacts<K>(ks: seq<K>)
    ensures var r := RankedTally(ks);
      && SortedByCount(r)
      && DistinctKeys(r)
      && (forall k :: k in Keys(r) <==> k in ks)
      && Total(r) == |ks|
      && forall i :: 0 <= i < |r| ==> r[i].count == multiset(ks)[r[i].key] && r[i].count >= 1
  {
    var t := Tally(ks);
    var r := RankedTally(ks);
    TallyCounts(ks);
    SortByCountPermutes(t);
    SortByCountOrders(t);
    forall i | 0 <= i < |r| ensures r[i].count == multiset(ks)[r[i].key] && r[i].count >= 1 {
      assert r[i] in multiset(t);
      var m :| 0 <= m < |t| && t[m] == r[i];
      TallyEntry(ks, m);
    }
  }

  /** A ranked tally has an entry for exactly the keys that occur. */
  lemma RankedTallyKeys<K>(ks: seq<K>, k: K)
    ensures k in Keys(RankedTally(ks)) <==> k in ks
  {
    TallyCounts(ks);
    SortByCountPermutes(Tally(ks));
  }
}
