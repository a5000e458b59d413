/** Topic counters. In the source each counter is a plain JavaScript object
    `{ [topic]: count }`; its entries come back from `Object.entries` in
    insertion order, so a table is modelled as the sequence of its entries in
    that order. */
module TopicTables {

  type TopicTable = seq<(string, nat)>

  predicate KeysDistinct(t: TopicTable)
  {
    forall i, j :: 0 <= i < j < |t| ==> t[i].0 != t[j].0
  }

  /** `Object.keys(t)`. */
  function Keys(t: TopicTable): (r: seq<string>)
    ensures |r| == |t| && forall i :: 0 <= i < |t| ==> r[i] == t[i].0
  {
    seq(|t|, i requires 0 <= i < |t| => t[i].0)
  }

  /** `t[k] || 0`. */
  function Get(t: TopicTable, k: string): nat
  {
    if t == [] then 0
    else if t[0].0 == k then t[0].1
    else Get(t[1..], k)
  }

  /** In a table with distinct keys, every entry is what `Get` reads for its key. */
  lemma {:induction false} GetEntry(t: TopicTable, e: (string, nat))
    requires KeysDistinct(t) && e in t
    ensures Get(t, e.0) == e.1
  {
    if t[0] != e {
      assert e in t[1..];
      assert t[0].0 != e.0 by {
        var j :| 0 <= j < |t| && t[j] == e;
      }
      GetEntry(t[1..], e);
    }
  }

  /** A key that is not in the table reads as 0. */
  lemma {:induction false} GetMissing(t: TopicTable, k: string)
    requires k !in Keys(t)
    ensures Get(t, k) == 0
  {
    if t != [] {
      assert t[0].0 == Keys(t)[0];
      assert Keys(t[1..]) == Keys(t)[1..];
      GetMissing(t[1..], k);
    }
  }

  /** One unfolding of `Get` on a table with a known first entry. */
  lemma GetCons(e: (string, nat), rest: TopicTable, k: string)
    ensures Get([e] + rest, k) == if e.0 == k then e.1 else Get(rest, k)
  {
    assert ([e] + rest)[0] == e && ([e] + rest)[1..] == rest;
  }

  /** `Keys` of a table with a known first entry. */
  lemma KeysCons(e: (string, nat), rest: TopicTable)
    ensures Keys([e] + rest) == [e.0] + Keys(rest)
  {
  }

  /** Distinct keys, stated on the key sequence. */
  lemma KeysDistinctIsDistinct(t: TopicTable)
    ensures KeysDistinct(t) <==> Distinct(Keys(t))
  {
    if !KeysDistinct(t) {
      var i, j :| 0 <= i < j < |t| && t[i].0 == t[j].0;
      assert Keys(t)[i] == Keys(t)[j];
    }
  }

  /** `t[k] = (t[k] || 0) + 1`: an existing key is updated in place, a new
      key is appended. */
  function Increment(t: TopicTable, k: string): TopicTable
  {
    if t == [] then [(k, 1)]
    else if t[0].0 == k then [(k, t[0].1 + 1)] + t[1..]
    else [t[0]] + Increment(t[1..], k)
  }

  /** The count of `k` rises by one and no other count changes. */
  lemma {:induction false} IncrementGet(t: TopicTable, k: string)
    ensures Get(Increment(t, k), k) == Get(t, k) + 1
    ensures forall k' :: k' != k ==> Get(Increment(t, k), k') == Get(t, k')
  {
    if t == [] {
      forall k' ensures Get(Increment(t, k), k') == (if k' == k then 1 else 0) {
        GetCons((k, 1), [], k');
        assert [(k, 1)] + [] == [(k, 1)];
      }
    } else if t[0].0 == k {
      forall k' ensures Get(Increment(t, k), k') == if k' == k then t[0].1 + 1 else Get(t, k') {
        GetCons((k, t[0].1 + 1), t[1..], k');
      }
    } else {
      IncrementGet(t[1..], k);
      forall k' ensures Get(Increment(t, k), k') == if t[0].0 == k' then t[0].1 else Get(Increment(t[1..], k), k') {
        GetCons(t[0], Increment(t[1..], k), k');
      }
    }
  }

  /** An existing key keeps its place and a new key goes last. */
  lemma {:induction false} IncrementKeys(t: TopicTable, k: string)
    ensures Keys(Increment(t, k)) == if k in Keys(t) then Keys(t) else Keys(t) + [k]
  {
    if t != [] {
      KeysCons(t[0], t[1..]);
      assert t == [t[0]] + t[1..];
      if t[0].0 == k {
        KeysCons((k, t[0].1 + 1), t[1..]);
      } else {
        IncrementKeys(t[1..], k);
        KeysCons(t[0], Increment(t[1..], k));
      }
    }
  }

  /** Incrementing keeps the keys distinct. */
  lemma IncrementDistinct(t: TopicTable, k: string)
    requires KeysDistinct(t)
    ensures KeysDistinct(Increment(t, k))
  {
    IncrementKeys(t, k);
    KeysDistinctIsDistinct(t);
    KeysDistinctIsDistinct(Increment(t, k));
  }

  /** `ks.forEach(k => t[k] = (t[k] || 0) + 1)`. */
  function CountAll(t: TopicTable, ks: seq<string>): TopicTable
    decreases |ks|
  {
    if ks == [] then t
    else Increment(CountAll(t, ks[..|ks| - 1]), ks[|ks| - 1])
  }

  /** Every occurrence of a key in `ks` adds one to its count. */
  lemma {:induction false} CountAllGet(t: TopicTable, ks: seq<string>)
    ensures forall k :: Get(CountAll(t, ks), k) == Get(t, k) + multiset(ks)[k]
    decreases |ks|
  {
    if ks != [] {
      var prefix, last := ks[..|ks| - 1], ks[|ks| - 1];
      assert ks == prefix + [last];
      CountAllGet(t, prefix);
      IncrementGet(CountAll(t, prefix), last);
    }
  }

  /** Keys already present keep their places and new ones are appended in
      order of first occurrence; the keys stay distinct. */
  lemma {:induction false} CountAllKeys(t: TopicTable, ks: seq<string>)
    ensures forall k :: k in Keys(CountAll(t, ks)) <==> k in Keys(t) || k in ks
    ensures KeysDistinct(t) ==> KeysDistinct(CountAll(t, ks))
    decreases |ks|
  {
    if ks != [] {
      var prefix, last := ks[..|ks| - 1], ks[|ks| - 1];
      assert ks == prefix + [last];
      CountAllKeys(t, prefix);
      IncrementKeys(CountAll(t, prefix), last);
      if KeysDistinct(t) {
        IncrementDistinct(CountAll(t, prefix), last);
      }
    }
  }

  // ---------------------------------------------------------------------
  // `.sort((a, b) => b[1] - a[1])`: the stable sort by descending count
  // ---------------------------------------------------------------------

  predicate SortedByCount(s: TopicTable)
  {
    forall i, j :: 0 <= i < j < |s| ==> s[i].1 >= s[j].1
  }

  /** The entries of `s` whose count is `c`, in their order in `s`. */
  function WithCount(s: TopicTable, c: nat): TopicTable
  {
    if s == [] then []
    else (if s[0].1 == c then [s[0]] else []) + WithCount(s[1..], c)
  }

  /** `WithCount` keeps exactly the entries with count `c`. */
  lemma {:induction false} WithCountMembers(s: TopicTable, c: nat)
    ensures forall e :: e in WithCount(s, c) <==> e in s && e.1 == c
  {
    if s != [] {
      WithCountMembers(s[1..], c);
      assert s == [s[0]] + s[1..];
    }
  }

  /** One unfolding of `WithCount` on a table with a known first entry. */
  lemma WithCountCons(e: (string, nat), rest: TopicTable, c: nat)
    ensures WithCount([e] + rest, c) == (if e.1 == c then [e] else []) + WithCount(rest, c)
  {
    assert ([e] + rest)[0] == e && ([e] + rest)[1..] == rest;
  }

  /** Inserts `e` in front of the first entry whose count is not larger, so
      that it precedes every entry it ties with. */
  function InsertByCount(e: (string, nat), s: TopicTable): TopicTable
  {
    if s == [] || e.1 >= s[0].1 then [e] + s
    else [s[0]] + InsertByCount(e, s[1..])
  }

  /** Inserting adds `e` and keeps every entry: the result is a permutation
      of `s` with `e`. */
  lemma {:induction false} InsertByCountPermutes(e: (string, nat), s: TopicTable)
    ensures multiset(InsertByCount(e, s)) == multiset(s) + multiset{e}
    ensures forall x :: x in InsertByCount(e, s) <==> x == e || x in s
  {
    if !(s == [] || e.1 >= s[0].1) {
      InsertByCountPermutes(e, s[1..]);
      assert s == [s[0]] + s[1..];
    }
  }

  /** Inserting into a sorted sequence keeps it sorted. */
  lemma {:induction false} InsertByCountSorted(e: (string, nat), s: TopicTable)
    requires SortedByCount(s)
    ensures SortedByCount(InsertByCount(e, s))
  {
    if !(s == [] || e.1 >= s[0].1) {
      InsertByCountSorted(e, s[1..]);
      InsertByCountPermutes(e, s[1..]);
      SortedCons(s[0], InsertByCount(e, s[1..]));
    }
  }

  /** A sorted sequence stays sorted under a head with a count no smaller than
      any of its entries. */
  lemma SortedCons(x: (string, nat), rest: TopicTable)
    requires SortedByCount(rest)
    requires forall y :: y in rest ==> y.1 <= x.1
    ensures SortedByCount([x] + rest)
  {
    var r := [x] + rest;
    forall i, j | 0 <= i < j < |r| ensures r[i].1 >= r[j].1 {
      if i > 0 {
        assert r[i] == rest[i - 1] && r[j] == rest[j - 1];
      } else {
        assert r[j] in rest;
      }
    }
  }

  /** The entries of each count after inserting `e`: `e` comes first among
      those it ties with, the others keep their order. */
  lemma {:induction false} InsertByCountWithCount(e: (string, nat), s: TopicTable, c: nat)
    ensures WithCount(InsertByCount(e, s), c) == (if e.1 == c then [e] else []) + WithCount(s, c)
  {
    if s == [] || e.1 >= s[0].1 {
      WithCountCons(e, s, c);
    } else {
      InsertByCountWithCount(e, s[1..], c);
      WithCountCons(s[0], InsertByCount(e, s[1..]), c);
      WithCountCons(s[0], s[1..], c);
      assert s == [s[0]] + s[1..];
    }
  }

  /** The entries of `t` in descending order of count, ties in table order. */
  function SortByCount(t: TopicTable): TopicTable
  {
    if t == [] then [] else InsertByCount(t[0], SortByCount(t[1..]))
  }

  /** The sort returns a sorted permutation of the table. */
  lemma {:induction false} SortByCountSortedPermutation(t: TopicTable)
    ensures SortedByCount(SortByCount(t))
    ensures multiset(SortByCount(t)) == multiset(t)
  {
    if t != [] {
      SortByCountSortedPermutation(t[1..]);
      InsertByCountSorted(t[0], SortByCount(t[1..]));
      InsertByCountPermutes(t[0], SortByCount(t[1..]));
      assert t == [t[0]] + t[1..];
    }
  }

  /** The sort is stable: for every count, the entries with that count come
      out in the order they had in the table. */
  lemma {:induction false} SortByCountIsStable(t: TopicTable)
    ensures forall c :: WithCount(SortByCount(t), c) == WithCount(t, c)
  {
    if t != [] {
      SortByCountIsStable(t[1..]);
      forall c ensures WithCount(SortByCount(t), c) == WithCount(t, c) {
        InsertByCountWithCount(t[0], SortByCount(t[1..]), c);
        WithCountCons(t[0], t[1..], c);
        assert t == [t[0]] + t[1..];
      }
    }
  }

  /** A sorted sequence is determined by its per-count subsequences: any two
      orders that are sorted by descending count and keep the table order
      among ties are the same order. So `SortByCount` is exactly the result of
      any stable sort with the source's comparator. */
  lemma {:induction false} StableSortIsUnique(r1: TopicTable, r2: TopicTable)
    requires SortedByCount(r1) && SortedByCount(r2)
    requires forall c :: WithCount(r1, c) == WithCount(r2, c)
    ensures r1 == r2
    decreases |r1|
  {
    if r1 != [] || r2 != [] {
      SameHead(r1, r2);
      var x := r1[0];
      forall c ensures WithCount(r1[1..], c) == WithCount(r2[1..], c) {
        WithCountCons(x, r1[1..], c);
        WithCountCons(x, r2[1..], c);
        assert r1 == [x] + r1[1..] && r2 == [x] + r2[1..];
        var head := if x.1 == c then [x] else [];
        assert WithCount(r1[1..], c) == (head + WithCount(r1[1..], c))[|head|..];
        assert WithCount(r2[1..], c) == (head + WithCount(r2[1..], c))[|head|..];
      }
      SortedTail(r1);
      SortedTail(r2);
      StableSortIsUnique(r1[1..], r2[1..]);
      assert r1 == [x] + r1[1..] && r2 == [x] + r2[1..];
    }
  }

  /** Two sorted sequences with the same per-count subsequences, not both
      empty, start with the same entry. */
  lemma SameHead(r1: TopicTable, r2: TopicTable)
    requires SortedByCount(r1) && SortedByCount(r2)
    requires forall c :: WithCount(r1, c) == WithCount(r2, c)
    requires r1 != [] || r2 != []
    ensures r1 != [] && r2 != [] && r1[0] == r2[0]
  {
    var (a, b) := if r1 != [] then (r1, r2) else (r2, r1);
    HeadCountAtMost(a, b);
    HeadCountAtMost(b, a);
    var m := r1[0].1;
    WithCountCons(r1[0], r1[1..], m);
    WithCountCons(r2[0], r2[1..], m);
    assert r1 == [r1[0]] + r1[1..] && r2 == [r2[0]] + r2[1..];
    assert WithCount(r1, m)[0] == r1[0];
  }

  /** The first entry of a sorted sequence is also in the other one, so the
      other one is not empty and its first count is at least as large. */
  lemma HeadCountAtMost(r1: TopicTable, r2: TopicTable)
    requires SortedByCount(r2)
    requires forall c :: WithCount(r1, c) == WithCount(r2, c)
    requires r1 != []
    ensures r2 != [] && r1[0].1 <= r2[0].1
  {
    var x := r1[0];
    WithCountMembers(r1, x.1);
    WithCountMembers(r2, x.1);
    assert x in WithCount(r1, x.1);
    assert x in WithCount(r2, x.1);
    var i :| 0 <= i < |r2| && r2[i] == x;
    if i > 0 {
      assert r2[0].1 >= r2[i].1;
    }
  }

  lemma SortedTail(s: TopicTable)
    requires SortedByCount(s) && s != []
    ensures SortedByCount(s[1..])
  {
    forall i, j | 0 <= i < j < |s| - 1 ensures s[1..][i].1 >= s[1..][j].1 {
      assert s[1..][i] == s[i + 1] && s[1..][j] == s[j + 1];
    }
  }

  // ---------------------------------------------------------------------
  // `.map(([topic]) => topic).slice(0, n)`
  // ---------------------------------------------------------------------

  /** Sequences whose elements are pairwise different. */
  predicate Distinct<T(==)>(s: seq<T>)
  {
    forall i, j :: 0 <= i < j < |s| ==> s[i] != s[j]
  }

  /** The `n` most frequent keys of a table: `Object.entries(t).sort(...)
      .map(([k]) => k).slice(0, n)`. */
  function TopKeys(t: TopicTable, n: nat): seq<string>
  {
    Take(Keys(SortByCount(t)), n)
  }

  /** The keys `TopKeys` returns: at most `n` of them (exactly `n` when the
      table has that many), distinct keys of the table, in non-increasing
      count order, and no key left out has a larger count than one kept. */
  lemma TopKeysFacts(t: TopicTable, n: nat)
    requires KeysDistinct(t)
    ensures var r := TopKeys(t, n);
      && |r| == (if n < |t| then n else |t|)
      && Distinct(r)
      && (forall i :: 0 <= i < |r| ==> r[i] in Keys(t))
      && (forall i, j :: 0 <= i < j < |r| ==> Get(t, r[i]) >= Get(t, r[j]))
      && (forall k, i :: k in Keys(t) && k !in r && 0 <= i < |r| ==> Get(t, k) <= Get(t, r[i]))
  {
    var sorted := SortByCount(t);
    SortByCountSortedPermutation(t);
    PrefixKeysFacts(t, sorted, n);
    PrefixKeysMaximal(t, sorted, n);
  }

  /** When the table has no more than `n` entries, every key is kept. */
  lemma TopKeysAllWhenFew(t: TopicTable, n: nat)
    requires |t| <= n
    ensures forall k :: k in Keys(t) ==> k in TopKeys(t, n)
  {
    var sorted := SortByCount(t);
    SortByCountSortedPermutation(t);
    forall k | k in Keys(t) ensures k in TopKeys(t, n) {
      var a :| 0 <= a < |t| && Keys(t)[a] == k;
      assert t[a] in multiset(sorted);
      var p :| 0 <= p < |sorted| && sorted[p] == t[a];
      assert TopKeys(t, n)[p] == k;
    }
  }

  /** The first `n` keys of a sorted permutation of the table. */
  function Take(keys: seq<string>, n: nat): (r: seq<string>)
    ensures |r| == (if n < |keys| then n else |keys|)
    ensures forall i :: 0 <= i < |r| ==> r[i] == keys[i]
  {
    keys[..if n < |keys| then n else |keys|]
  }

  /** A sorted permutation has as many entries as the table, distinct keys,
      and every one of them is read back from the table by `Get`. */
  lemma PermutationFacts(t: TopicTable, sorted: TopicTable)
    requires KeysDistinct(t) && multiset(sorted) == multiset(t)
    ensures |sorted| == |t| && KeysDistinct(sorted)
    ensures forall i :: 0 <= i < |sorted| ==> sorted[i].0 in Keys(t) && Get(t, sorted[i].0) == sorted[i].1
  {
    SortedEntriesReadBack(t, sorted);
    SortedKeysDistinct(t, sorted);
    assert |multiset(sorted)| == |multiset(t)|;
  }

  /** The facts of `TopKeysFacts`, for any sorted permutation of the table. */
  lemma PrefixKeysFacts(t: TopicTable, sorted: TopicTable, n: nat)
    requires KeysDistinct(t) && SortedByCount(sorted) && multiset(sorted) == multiset(t)
    ensures var r := Take(Keys(sorted), n);
      && |r| == (if n < |t| then n else |t|)
      && Distinct(r)
      && (forall i :: 0 <= i < |r| ==> r[i] in Keys(t))
      && (forall i, j :: 0 <= i < j < |r| ==> Get(t, r[i]) >= Get(t, r[j]))
  {
    PermutationFacts(t, sorted);
  }

  /** No key left out of the first `n` keys of a sorted permutation has a
      larger count than one kept. */
  lemma PrefixKeysMaximal(t: TopicTable, sorted: TopicTable, n: nat)
    requires KeysDistinct(t) && SortedByCount(sorted) && multiset(sorted) == multiset(t)
    ensures var r := Take(Keys(sorted), n);
      forall k, i :: k in Keys(t) && k !in r && 0 <= i < |r| ==> Get(t, k) <= Get(t, r[i])
  {
    PermutationFacts(t, sorted);
    var r := Take(Keys(sorted), n);
    forall k, i | k in Keys(t) && k !in r && 0 <= i < |r|
      ensures Get(t, k) <= Get(t, r[i])
    {
      LeftOutIsLater(t, sorted, k, |r|);
    }
  }

  /** A key of the table that is not among the first `m` keys of a sorted
      permutation has a count no larger than any of them. */
  lemma LeftOutIsLater(t: TopicTable, sorted: TopicTable, k: string, m: nat)
    requires KeysDistinct(t) && SortedByCount(sorted) && multiset(sorted) == multiset(t)
    requires m <= |sorted| && k in Keys(t) && k !in Take(Keys(sorted), m)
    ensures forall i :: 0 <= i < m ==> Get(t, k) <= sorted[i].1
  {
    var a :| 0 <= a < |t| && Keys(t)[a] == k;
    assert t[a] in multiset(sorted);
    var p :| 0 <= p < |sorted| && sorted[p] == t[a];
    GetEntry(t, t[a]);
    assert Take(Keys(sorted), m) == Keys(sorted)[..m];
    NotInPrefix(Keys(sorted), k, m);
  }

  /** Nothing among the first `m` elements equals an element missing from
      the prefix. */
  lemma NotInPrefix<T>(s: seq<T>, x: T, m: nat)
    requires m <= |s| && x !in s[..m]
    ensures forall q :: 0 <= q < m ==> s[q] != x
  {
    forall q | 0 <= q < m ensures s[q] != x {
      assert s[..m][q] == s[q];
    }
  }

  /** Every entry of the sorted table is an entry of the table, read back by
      `Get` under its key. */
  lemma SortedEntriesReadBack(t: TopicTable, sorted: TopicTable)
    requires KeysDistinct(t) && multiset(sorted) == multiset(t)
    ensures forall i :: 0 <= i < |sorted| ==> sorted[i].0 in Keys(t) && Get(t, sorted[i].0) == sorted[i].1
  {
    forall i | 0 <= i < |sorted|
      ensures sorted[i].0 in Keys(t) && Get(t, sorted[i].0) == sorted[i].1
    {
      assert sorted[i] in multiset(t);
      var a :| 0 <= a < |t| && t[a] == sorted[i];
      assert Keys(t)[a] == sorted[i].0;
      GetEntry(t, sorted[i]);
    }
  }

  /** A permutation of a table with distinct keys has distinct keys. */
  lemma SortedKeysDistinct(t: TopicTable, sorted: TopicTable)
    requires KeysDistinct(t) && multiset(sorted) == multiset(t)
    ensures KeysDistinct(sorted)
  {
    forall i, j | 0 <= i < j < |sorted| ensures sorted[i].0 != sorted[j].0 {
      assert sorted[i] in multiset(t);
      var a :| 0 <= a < |t| && t[a] == sorted[i];
      UniqueEntry(t, a);
      assert sorted[i] != sorted[j] by {
        if sorted[i] == sorted[j] {
          TwoPositions(sorted, i, j);
        }
      }
      assert sorted[j] in multiset(t);
      GetEntry(t, sorted[i]);
      GetEntry(t, sorted[j]);
    }
  }

  /** An element at two positions occurs at least twice. */
  lemma TwoPositions<T>(s: seq<T>, i: nat, j: nat)
    requires i < j < |s| && s[i] == s[j]
    ensures multiset(s)[s[i]] >= 2
  {
    assert s == s[..i] + [s[i]] + s[i + 1..j] + [s[j]] + s[j + 1..];
  }

  /** In a table with distinct keys each entry occurs once. */
  lemma UniqueEntry(t: TopicTable, a: nat)
    requires KeysDistinct(t) && a < |t|
    ensures multiset(t)[t[a]] == 1
  {
    assert t == t[..a] + [t[a]] + t[a + 1..];
    assert t[a] !in t[..a] by {
      forall b | 0 <= b < a ensures t[b] != t[a] { }
    }
    assert t[a] !in t[a + 1..] by {
      forall b | a + 1 <= b < |t| ensures t[b] != t[a] { }
    }
  }
}
