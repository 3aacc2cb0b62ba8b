/** The column aggregation the dashboard uses: `value_counts` (which drops missing
    values), its `sort_index` ordering by value, and its ordering by descending
    count followed by `head(n)`. A count table is a sequence of entries, one per
    distinct value of the column. */
module ValueCounts {
  import opened Options

  /** One row of a count table: a distinct value of the column and how often it occurs. */
  datatype Entry<K> = Entry(key: K, count: nat)

  /** Number of occurrences of v in the column xs. */
  function Count<K(==)>(xs: seq<K>, v: K): nat
  {
    if xs == [] then 0
    else Count(xs[..|xs| - 1], v) + (if xs[|xs| - 1] == v then 1 else 0)
  }

  /** Sum of the counts a table records for key k. */
  function Lookup<K(==)>(es: seq<Entry<K>>, k: K): nat
  {
    if es == [] then 0
    else (if es[0].key == k then es[0].count else 0) + Lookup(es[1..], k)
  }

  /** Sum of all counts of a table. */
  function Total<K>(es: seq<Entry<K>>): nat
  {
    if es == [] then 0 else es[0].count + Total(es[1..])
  }

  predicate DistinctKeys<K(==)>(es: seq<Entry<K>>)
  {
    forall i, j :: 0 <= i < j < |es| ==> es[i].key != es[j].key
  }

  predicate Positive<K>(es: seq<Entry<K>>)
  {
    forall i :: 0 <= i < |es| ==> es[i].count > 0
  }

  predicate Listed<K(==)>(es: seq<Entry<K>>, k: K)
  {
    exists i :: 0 <= i < |es| && es[i].key == k
  }

  /** Keys strictly increasing: the order `sort_index` gives. */
  predicate Ascending(es: seq<Entry<int>>)
  {
    forall i, j :: 0 <= i < j < |es| ==> es[i].key < es[j].key
  }

  /** Counts never increase along the table: the order `value_counts` gives. */
  predicate Descending<K>(es: seq<Entry<K>>)
  {
    forall i, j :: 0 <= i < j < |es| ==> es[i].count >= es[j].count
  }

  /** es is exactly the value count of the column xs: every distinct value of xs is
      listed once, with its number of occurrences, and nothing else is listed. */
  predicate Tallies<K(==)>(es: seq<Entry<K>>, xs: seq<K>)
  {
    && DistinctKeys(es)
    && (forall i :: 0 <= i < |es| ==> 0 < es[i].count == Count(xs, es[i].key))
    && (forall v :: v in xs ==> Listed(es, v))
    && Total(es) == |xs|
  }

  lemma {:induction false} CountPositive<K>(xs: seq<K>, v: K)
    ensures Count(xs, v) > 0 <==> v in xs
  {
    if xs != [] {
      CountPositive(xs[..|xs| - 1], v);
      assert xs == xs[..|xs| - 1] + [xs[|xs| - 1]];
    }
  }

  lemma {:induction false} CountAppend<K>(xs: seq<K>, ys: seq<K>, v: K)
    ensures Count(xs + ys, v) == Count(xs, v) + Count(ys, v)
    decreases |ys|
  {
    if ys != [] {
      assert (xs + ys)[..|xs + ys| - 1] == xs + ys[..|ys| - 1];
      assert (xs + ys)[|xs + ys| - 1] == ys[|ys| - 1];
      CountAppend(xs, ys[..|ys| - 1], v);
      assert Count(xs + ys, v) == Count(xs + ys[..|ys| - 1], v) + (if ys[|ys| - 1] == v then 1 else 0);
      assert Count(ys, v) == Count(ys[..|ys| - 1], v) + (if ys[|ys| - 1] == v then 1 else 0);
    } else {
      assert xs + ys == xs;
    }
  }

  lemma {:induction false} LookupAbsent<K>(es: seq<Entry<K>>, k: K)
    requires !Listed(es, k)
    ensures Lookup(es, k) == 0
  {
    if es != [] {
      assert !Listed(es[1..], k) by {
        forall i | 0 <= i < |es[1..]| ensures es[1..][i].key != k {
          assert es[1..][i] == es[i + 1];
        }
      }
      LookupAbsent(es[1..], k);
    }
  }

  /** In a table with distinct keys, looking up a listed key gives its entry's count. */
  lemma {:induction false} LookupListed<K>(es: seq<Entry<K>>, i: nat)
    requires DistinctKeys(es) && i < |es|
    ensures Lookup(es, es[i].key) == es[i].count
  {
    if i == 0 {
      assert !Listed(es[1..], es[0].key) by {
        forall j | 0 <= j < |es[1..]| ensures es[1..][j].key != es[0].key {
          assert es[1..][j] == es[j + 1];
        }
      }
      LookupAbsent(es[1..], es[0].key);
    } else {
      assert es[1..][i - 1] == es[i];
      LookupListed(es[1..], i - 1);
    }
  }

  /** A table whose lookups agree with the occurrence counts of xs, with distinct keys
      and no zero entries, is the value count of xs. */
  lemma TalliesFromLookup<K>(es: seq<Entry<K>>, xs: seq<K>)
    requires DistinctKeys(es) && Positive(es) && Total(es) == |xs|
    requires forall i :: 0 <= i < |es| ==> Lookup(es, es[i].key) == Count(xs, es[i].key)
    requires forall i :: 0 <= i < |xs| ==> Lookup(es, xs[i]) == Count(xs, xs[i])
    ensures Tallies(es, xs)
  {
    forall i | 0 <= i < |es| ensures 0 < es[i].count == Count(xs, es[i].key) {
      LookupListed(es, i);
    }
    forall v | v in xs ensures Listed(es, v) {
      CountPositive(xs, v);
      if !Listed(es, v) {
        LookupAbsent(es, v);
      }
    }
  }

  /** Records one more occurrence of k: its entry is incremented, or a new entry is
      appended, so that entries stay in order of first occurrence. */
  function Bump<K(==)>(es: seq<Entry<K>>, k: K): seq<Entry<K>>
  {
    if es == [] then [Entry(k, 1)]
    else if es[0].key == k then [Entry(k, es[0].count + 1)] + es[1..]
    else [es[0]] + Bump(es[1..], k)
  }

  /** Bump adds one occurrence of k and nothing else. */
  lemma {:induction false} BumpCounts<K>(es: seq<Entry<K>>, k: K)
    ensures Positive(es) ==> Positive(Bump(es, k))
    ensures Total(Bump(es, k)) == Total(es) + 1
    ensures forall v :: Lookup(Bump(es, k), v) == Lookup(es, v) + (if v == k then 1 else 0)
  {
    if es != [] && es[0].key != k {
      BumpCounts(es[1..], k);
      assert Bump(es, k) == [es[0]] + Bump(es[1..], k);
    }
  }

  /** Bump only adds the key k, and keeps keys distinct. */
  lemma {:induction false} BumpKeys<K>(es: seq<Entry<K>>, k: K)
    requires DistinctKeys(es)
    ensures DistinctKeys(Bump(es, k))
    ensures forall i :: 0 <= i < |Bump(es, k)| ==> Bump(es, k)[i].key == k || Listed(es, Bump(es, k)[i].key)
  {
    if es != [] && es[0].key != k {
      var tail := es[1..];
      assert DistinctKeys(tail) by {
        forall i, j | 0 <= i < j < |tail| ensures tail[i].key != tail[j].key {
          assert tail[i] == es[i + 1] && tail[j] == es[j + 1];
        }
      }
      BumpKeys(tail, k);
      var r', r := Bump(tail, k), Bump(es, k);
      assert r == [es[0]] + r';
      forall i | 0 < i < |r| ensures r[i].key != es[0].key && (r[i].key == k || Listed(es, r[i].key)) {
        assert r[i] == r'[i - 1];
        if r[i].key != k {
          var j :| 0 <= j < |tail| && tail[j].key == r[i].key;
          assert es[j + 1] == tail[j];
        }
      }
    }
  }

  /** The value count of a column, entries in order of first occurrence (the order
      the hash table behind `value_counts` sees the values in). */
  function Tally<K(==)>(xs: seq<K>): seq<Entry<K>>
  {
    if xs == [] then [] else Bump(Tally(xs[..|xs| - 1]), xs[|xs| - 1])
  }

  lemma {:induction false} TallyLookup<K>(xs: seq<K>)
    ensures DistinctKeys(Tally(xs)) && Positive(Tally(xs)) && Total(Tally(xs)) == |xs|
    ensures forall v :: Lookup(Tally(xs), v) == Count(xs, v)
  {
    if xs != [] {
      TallyLookup(xs[..|xs| - 1]);
      BumpCounts(Tally(xs[..|xs| - 1]), xs[|xs| - 1]);
      BumpKeys(Tally(xs[..|xs| - 1]), xs[|xs| - 1]);
    }
  }

  /** Tally lists every distinct value of the column once, with its exact count. */
  lemma TallyCorrect<K>(xs: seq<K>)
    ensures Tallies(Tally(xs), xs)
  {
    TallyLookup(xs);
    var r := Tally(xs);
    forall i | 0 <= i < |r| ensures Lookup(r, r[i].key) == Count(xs, r[i].key) {
      var k := r[i].key;
      assert Lookup(Tally(xs), k) == Count(xs, k);
    }
    forall i | 0 <= i < |xs| ensures Lookup(r, xs[i]) == Count(xs, xs[i]) {
      var k := xs[i];
      assert Lookup(Tally(xs), k) == Count(xs, k);
    }
    TalliesFromLookup(r, xs);
  }

  /** Records one more occurrence of k in a table kept in ascending key order. */
  function Insert(es: seq<Entry<int>>, k: int): seq<Entry<int>>
  {
    if es == [] || k < es[0].key then [Entry(k, 1)] + es
    else if es[0].key == k then [Entry(k, es[0].count + 1)] + es[1..]
    else [es[0]] + Insert(es[1..], k)
  }

  /** Insert adds one occurrence of k and nothing else. */
  lemma {:induction false} InsertCounts(es: seq<Entry<int>>, k: int)
    ensures Positive(es) ==> Positive(Insert(es, k))
    ensures Total(Insert(es, k)) == Total(es) + 1
    ensures forall v :: Lookup(Insert(es, k), v) == Lookup(es, v) + (if v == k then 1 else 0)
  {
    if es != [] && es[0].key < k {
      InsertCounts(es[1..], k);
      assert Insert(es, k) == [es[0]] + Insert(es[1..], k);
    }
  }

  /** Insert keeps the keys strictly ascending. */
  lemma {:induction false} InsertAscending(es: seq<Entry<int>>, k: int)
    requires Ascending(es)
    ensures Ascending(Insert(es, k))
    ensures Insert(es, k) != [] && (Insert(es, k)[0].key == k || Insert(es, k)[0].key == es[0].key)
  {
    if es != [] && es[0].key < k {
      InsertAscending(es[1..], k);
      var r', r := Insert(es[1..], k), Insert(es, k);
      assert r == [es[0]] + r';
      assert r'[0].key == k || r'[0].key == es[1].key;
    }
  }

  /** The value count of an integer column sorted by value (`value_counts().sort_index()`). */
  function SortedTally(xs: seq<int>): seq<Entry<int>>
  {
    if xs == [] then [] else Insert(SortedTally(xs[..|xs| - 1]), xs[|xs| - 1])
  }

  lemma {:induction false} SortedTallyLookup(xs: seq<int>)
    ensures Ascending(SortedTally(xs)) && Positive(SortedTally(xs)) && Total(SortedTally(xs)) == |xs|
    ensures forall v :: Lookup(SortedTally(xs), v) == Count(xs, v)
  {
    if xs != [] {
      SortedTallyLookup(xs[..|xs| - 1]);
      InsertCounts(SortedTally(xs[..|xs| - 1]), xs[|xs| - 1]);
      InsertAscending(SortedTally(xs[..|xs| - 1]), xs[|xs| - 1]);
    }
  }

  /** SortedTally is the value count of the column, in strictly ascending value order. */
  lemma SortedTallyCorrect(xs: seq<int>)
    ensures Tallies(SortedTally(xs), xs) && Ascending(SortedTally(xs))
  {
    SortedTallyLookup(xs);
    var r := SortedTally(xs);
    forall i | 0 <= i < |r| ensures Lookup(r, r[i].key) == Count(xs, r[i].key) {
      var k := r[i].key;
      assert Lookup(SortedTally(xs), k) == Count(xs, k);
    }
    forall i | 0 <= i < |xs| ensures Lookup(r, xs[i]) == Count(xs, xs[i]) {
      var k := xs[i];
      assert Lookup(SortedTally(xs), k) == Count(xs, k);
    }
    TalliesFromLookup(r, xs);
  }

  /** Index of the first entry with the largest count. */
  function ArgMax<K>(es: seq<Entry<K>>): (m: nat)
    requires es != []
    ensures m < |es|
    ensures forall i :: 0 <= i < |es| ==> es[i].count <= es[m].count
    ensures forall i :: 0 <= i < m ==> es[i].count < es[m].count
  {
    if |es| == 1 then 0
    else
      var m := ArgMax(es[..|es| - 1]);
      if es[m].count < es[|es| - 1].count then |es| - 1 else m
  }

  /** The n entries with the largest counts, largest first (`sort_values(ascending=False).head(n)`);
      among equal counts the earlier entry comes first. */
  function TopK<K(==)>(es: seq<Entry<K>>, n: nat): (r: seq<Entry<K>>)
    ensures |r| == if |es| < n then |es| else n
    decreases n
  {
    if n == 0 || es == [] then []
    else
      var m := ArgMax(es);
      [es[m]] + TopK(Remove(es, m), n - 1)
  }

  /** The table without its entry at m. */
  function Remove<K>(es: seq<Entry<K>>, m: nat): (rest: seq<Entry<K>>)
    requires m < |es|
    ensures |rest| == |es| - 1
  {
    es[..m] + es[m + 1..]
  }

  /** An entry is in the table exactly when it is the removed one or still in the rest. */
  lemma RemoveMembers<K>(es: seq<Entry<K>>, m: nat)
    requires m < |es|
    ensures forall x :: x in es <==> x == es[m] || x in Remove(es, m)
  {
  }

  /** Removing an entry from a table with distinct keys leaves distinct keys, none of
      them the removed entry's key. */
  lemma RemoveDistinct<K>(es: seq<Entry<K>>, m: nat)
    requires m < |es| && DistinctKeys(es)
    ensures DistinctKeys(Remove(es, m))
    ensures forall x :: x in Remove(es, m) ==> x.key != es[m].key
  {
  }

  /** TopK picks only entries of the table, and all of them when there are at most n. */
  lemma {:induction false} TopKPicksFromTable<K>(es: seq<Entry<K>>, n: nat)
    ensures forall x :: x in TopK(es, n) ==> x in es
    ensures |es| <= n ==> forall x :: x in es ==> x in TopK(es, n)
    decreases n
  {
    if n > 0 && es != [] {
      var m := ArgMax(es);
      var rest := Remove(es, m);
      RemoveMembers(es, m);
      TopKPicksFromTable(rest, n - 1);
      assert TopK(es, n) == [es[m]] + TopK(rest, n - 1);
    }
  }

  /** TopK never lists a key twice when the table does not. */
  lemma {:induction false} TopKDistinct<K>(es: seq<Entry<K>>, n: nat)
    requires DistinctKeys(es)
    ensures DistinctKeys(TopK(es, n))
    decreases n
  {
    if n > 0 && es != [] {
      var m := ArgMax(es);
      var rest := Remove(es, m);
      RemoveMembers(es, m);
      RemoveDistinct(es, m);
      TopKDistinct(rest, n - 1);
      TopKPicksFromTable(rest, n - 1);
      var r', r := TopK(rest, n - 1), TopK(es, n);
      assert r == [es[m]] + r';
      forall i, j | 0 <= i < j < |r| ensures r[i].key != r[j].key {
        assert r[j] == r'[j - 1] && r[j] in r';
        if i > 0 { assert r[i] == r'[i - 1]; }
      }
    }
  }

  /** TopK lists counts in non-increasing order. */
  lemma {:induction false} TopKDescending<K>(es: seq<Entry<K>>, n: nat)
    ensures Descending(TopK(es, n))
    decreases n
  {
    if n > 0 && es != [] {
      var m := ArgMax(es);
      var rest := Remove(es, m);
      RemoveMembers(es, m);
      TopKDescending(rest, n - 1);
      TopKPicksFromTable(rest, n - 1);
      var r', r := TopK(rest, n - 1), TopK(es, n);
      assert r == [es[m]] + r';
      forall i, j | 0 <= i < j < |r| ensures r[i].count >= r[j].count {
        assert r[j] == r'[j - 1];
        if i > 0 {
          assert r[i] == r'[i - 1];
        } else {
          assert r'[j - 1] in r';
        }
      }
    }
  }

  /** Every entry of the table that TopK leaves out has a count no larger than any
      entry it lists. */
  lemma {:induction false} TopKDominates<K>(es: seq<Entry<K>>, n: nat, x: Entry<K>, y: Entry<K>)
    requires x in es && x !in TopK(es, n) && y in TopK(es, n)
    ensures x.count <= y.count
    decreases n
  {
    var m := ArgMax(es);
    var rest := Remove(es, m);
    RemoveMembers(es, m);
    var r', r := TopK(rest, n - 1), TopK(es, n);
    assert r == [es[m]] + r';
    assert x != es[m] && x in rest && x !in r';
    if y != es[m] {
      assert y in r';
      TopKDominates(rest, n - 1, x, y);
    }
  }

  /** The present values of a column: `value_counts` drops missing values. */
  function DropMissing<T>(xs: seq<Option<T>>): seq<T>
  {
    if xs == [] then []
    else
      var init := DropMissing(xs[..|xs| - 1]);
      match xs[|xs| - 1]
      case None => init
      case Some(v) => init + [v]
  }

  /** Dropping missing values keeps every present value's count and removes exactly the missing ones. */
  lemma {:induction false} DropMissingCount<T>(xs: seq<Option<T>>, v: T)
    ensures Count(DropMissing(xs), v) == Count(xs, Some(v))
    ensures |DropMissing(xs)| + Count(xs, None) == |xs|
  {
    if xs != [] {
      var init := xs[..|xs| - 1];
      DropMissingCount(init, v);
      if xs[|xs| - 1].Some? {
        CountAppend(DropMissing(init), [xs[|xs| - 1].value], v);
      }
    }
  }

  lemma {:induction false} DropMissingAppend<T>(xs: seq<Option<T>>, ys: seq<Option<T>>)
    ensures DropMissing(xs + ys) == DropMissing(xs) + DropMissing(ys)
    decreases |ys|
  {
    if ys == [] {
      assert xs + ys == xs;
    } else {
      assert (xs + ys)[..|xs + ys| - 1] == xs + ys[..|ys| - 1];
      assert (xs + ys)[|xs + ys| - 1] == ys[|ys| - 1];
      DropMissingAppend(xs, ys[..|ys| - 1]);
    }
  }

  /** Each entry of the top n of a column's value count carries the exact number of
      occurrences of its value, never zero. */
  lemma TopTallyCounts<K>(xs: seq<K>, n: nat)
    ensures forall i :: 0 <= i < |TopK(Tally(xs), n)| ==>
      0 < TopK(Tally(xs), n)[i].count == Count(xs, TopK(Tally(xs), n)[i].key)
  {
    var table, r := Tally(xs), TopK(Tally(xs), n);
    TallyCorrect(xs);
    TopKPicksFromTable(table, n);
    forall i | 0 <= i < |r| ensures 0 < r[i].count == Count(xs, r[i].key) {
      assert r[i] in r;
      var k :| 0 <= k < |table| && table[k] == r[i];
    }
  }

  /** A value of the column missing from the top n of its value count occurs no more
      often than any listed value, and can be missing only when n values are listed. */
  lemma TopTallyDominates<K>(xs: seq<K>, n: nat, v: K)
    requires v in xs && !Listed(TopK(Tally(xs), n), v)
    ensures |TopK(Tally(xs), n)| == n
    ensures forall i :: 0 <= i < |TopK(Tally(xs), n)| ==> Count(xs, v) <= TopK(Tally(xs), n)[i].count
  {
    var table := Tally(xs);
    var r := TopK(table, n);
    TallyCorrect(xs);
    TopKPicksFromTable(table, n);
    var k :| 0 <= k < |table| && table[k].key == v;
    assert table[k] !in r;
    forall i | 0 <= i < |r| ensures Count(xs, v) <= r[i].count {
      TopKDominates(table, n, table[k], r[i]);
    }
  }
}
