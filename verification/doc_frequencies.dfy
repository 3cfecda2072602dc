/**
 * Document-frequency counting (`countDocFrequencies`).
 *
 * A JavaScript record or `Map` from keys to counts is modelled as an
 * association list in insertion order, which is the order in which the
 * source later iterates it with `Object.entries` or `.entries()`. The
 * counter is generic in the key type: the term counter counts strings and
 * the sequence detector reuses it on adjacent token pairs.
 */
module DocFrequencies {

  /** A key -> count table in insertion order. */
  type Counts<K> = seq<(K, nat)>

  predicate HasKey<K(==,!new)>(c: Counts<K>, k: K) {
    c != [] && (c[0].0 == k || HasKey(c[1..], k))
  }

  lemma {:induction false} HasKeyIndex<K(!new)>(c: Counts<K>, k: K)
    ensures HasKey(c, k) <==> exists i :: 0 <= i < |c| && c[i].0 == k
  {
    if c != [] {
      HasKeyIndex(c[1..], k);
      if exists i :: 0 <= i < |c| && c[i].0 == k {
        var i :| 0 <= i < |c| && c[i].0 == k;
        if i > 0 {
          assert c[1..][i - 1].0 == k;
        }
      }
    }
  }

  /** `c[k] || 0`: the count stored for `k`, or 0 when `k` is absent. */
  function Get<K(==,!new)>(c: Counts<K>, k: K): nat {
    if c == [] then 0
    else if c[0].0 == k then c[0].1
    else Get(c[1..], k)
  }

  /** No key occurs twice, as in a JavaScript object. */
  ghost predicate DistinctKeys<K(!new)>(c: Counts<K>) {
    forall i, j :: 0 <= i < j < |c| ==> c[i].0 != c[j].0
  }

  lemma GetFindsEntry<K(!new)>(c: Counts<K>, i: nat)
    requires DistinctKeys(c)
    requires i < |c|
    ensures Get(c, c[i].0) == c[i].1
  {
    if i > 0 {
      GetFindsEntry(c[1..], i - 1);
    }
  }

  lemma GetAbsent<K(!new)>(c: Counts<K>, k: K)
    requires !HasKey(c, k)
    ensures Get(c, k) == 0
  {
    if c != [] {
      GetAbsent(c[1..], k);
    }
  }

  /** `counts[k] = (counts[k] || 0) + 1`: bump an existing entry in place, or append a new one. */
  function Increment<K(==,!new)>(c: Counts<K>, k: K): (r: Counts<K>)
    ensures Get(r, k) == Get(c, k) + 1
    ensures forall k' :: k' != k ==> Get(r, k') == Get(c, k')
    ensures forall k' :: HasKey(r, k') <==> HasKey(c, k') || k' == k
    ensures DistinctKeys(c) ==> DistinctKeys(r)
    ensures |r| == if HasKey(c, k) then |c| else |c| + 1
    ensures forall i :: 0 <= i < |c| ==> r[i].0 == c[i].0
    ensures forall i :: |c| <= i < |r| ==> r[i].0 == k
  {
    if c == [] then [(k, 1)]
    else if c[0].0 == k then [(k, c[0].1 + 1)] + c[1..]
    else
      var tail := Increment(c[1..], k);
      assert ([c[0]] + tail)[1..] == tail;
      [c[0]] + tail
  }

  /** The distinct elements of `s`: the contents of `new Set(s)`. */
  function Dedup<K(==,!new)>(s: seq<K>): (r: seq<K>)
    ensures forall x :: x in r <==> x in s
    ensures forall i, j :: 0 <= i < j < |r| ==> r[i] != r[j]
    ensures |r| <= |s|
  {
    if s == [] then []
    else
      var d := Dedup(s[..|s| - 1]);
      assert s == s[..|s| - 1] + [s[|s| - 1]];
      if s[|s| - 1] in d then d else d + [s[|s| - 1]]
  }

  /** Increments the count of every key of `ks`, in order. */
  function AddAll<K(==,!new)>(c: Counts<K>, ks: seq<K>): (r: Counts<K>)
    requires forall i, j :: 0 <= i < j < |ks| ==> ks[i] != ks[j]
    ensures forall k :: Get(r, k) == Get(c, k) + (if k in ks then 1 else 0)
    ensures forall k :: HasKey(r, k) <==> HasKey(c, k) || k in ks
    ensures DistinctKeys(c) ==> DistinctKeys(r)
  {
    if ks == [] then c
    else
      var prefix := ks[..|ks| - 1];
      assert ks == prefix + [ks[|ks| - 1]];
      Increment(AddAll(c, prefix), ks[|ks| - 1])
  }

  /** Reference definition: the number of documents that contain `k` at least once. */
  function DocCount<K(==,!new)>(docs: seq<seq<K>>, k: K): nat {
    if docs == [] then 0
    else DocCount(docs[..|docs| - 1], k) + (if k in docs[|docs| - 1] then 1 else 0)
  }

  /**
   * `countDocFrequencies`: for every document, every distinct token bumps its
   * count once. A token not yet in the table is appended to it (`Increment`).
   */
  function CountDocFrequencies<K(==,!new)>(docs: seq<seq<K>>): (r: Counts<K>)
    ensures DistinctKeys(r)
    ensures forall k :: Get(r, k) == DocCount(docs, k)
    ensures forall k :: HasKey(r, k) <==> exists i :: 0 <= i < |docs| && k in docs[i]
  {
    if docs == [] then []
    else
      var prefix := docs[..|docs| - 1];
      var last := docs[|docs| - 1];
      var r := AddAll(CountDocFrequencies(prefix), Dedup(last));
      assert forall k :: (exists i :: 0 <= i < |docs| && k in docs[i])
                     <==> (exists i :: 0 <= i < |prefix| && k in prefix[i]) || k in last by {
        forall k | exists i :: 0 <= i < |docs| && k in docs[i]
          ensures (exists i :: 0 <= i < |prefix| && k in prefix[i]) || k in last
        {
          var i :| 0 <= i < |docs| && k in docs[i];
          if i < |prefix| {
            assert k in prefix[i];
          }
        }
        forall k, i | 0 <= i < |prefix| && k in prefix[i]
          ensures exists i' :: 0 <= i' < |docs| && k in docs[i']
        {
          assert k in docs[i];
        }
      }
      r
  }

  /** Counting one more document adds each of its distinct tokens once. */
  lemma CountAppend<K(!new)>(docs: seq<seq<K>>, d: seq<K>)
    ensures CountDocFrequencies(docs + [d]) == AddAll(CountDocFrequencies(docs), Dedup(d))
  {
    assert (docs + [d])[..|docs|] == docs;
  }

  /** A document of one token adds that token once. */
  lemma CountAppendOne<K(!new)>(docs: seq<seq<K>>, a: K)
    ensures CountDocFrequencies(docs + [[a]]) == Increment(CountDocFrequencies(docs), a)
  {
    CountAppend(docs, [a]);
    assert [a][..0] == [];
  }

  /** A document of two different tokens adds each of them once, in document order. */
  lemma CountAppendTwo<K(!new)>(docs: seq<seq<K>>, a: K, b: K)
    requires a != b
    ensures CountDocFrequencies(docs + [[a, b]]) == Increment(Increment(CountDocFrequencies(docs), a), b)
  {
    CountAppend(docs, [a, b]);
    assert [a, b][..1] == [a];
    assert [a][..0] == [];
    assert Dedup([a]) == [a];
    assert Dedup([a, b]) == [a, b];
    var c := CountDocFrequencies(docs);
    assert AddAll(c, [a]) == Increment(c, a);
    assert AddAll(c, [a, b]) == Increment(AddAll(c, [a]), b);
  }

  lemma {:induction false} DocCountBounds<K(!new)>(docs: seq<seq<K>>, k: K)
    ensures DocCount(docs, k) <= |docs|
    ensures DocCount(docs, k) >= 1 <==> exists i :: 0 <= i < |docs| && k in docs[i]
  {
    if docs != [] {
      var prefix := docs[..|docs| - 1];
      DocCountBounds(prefix, k);
      if exists i :: 0 <= i < |docs| && k in docs[i] {
        var i :| 0 <= i < |docs| && k in docs[i];
        if i < |prefix| {
          assert k in prefix[i];
        }
      }
      if exists i :: 0 <= i < |prefix| && k in prefix[i] {
        var i :| 0 <= i < |prefix| && k in prefix[i];
        assert k in docs[i];
      }
    }
  }

  /** Every stored count lies between 1 and the number of documents. */
  lemma CountsInRange<K(!new)>(docs: seq<seq<K>>, k: K)
    requires HasKey(CountDocFrequencies(docs), k)
    ensures 1 <= Get(CountDocFrequencies(docs), k) <= |docs|
  {
    DocCountBounds(docs, k);
  }

  lemma {:induction false} DocCountConcat<K(!new)>(a: seq<seq<K>>, b: seq<seq<K>>, k: K)
    ensures DocCount(a + b, k) == DocCount(a, k) + DocCount(b, k)
    decreases |b|
  {
    if b == [] {
      assert a + b == a;
    } else {
      var b' := b[..|b| - 1];
      assert (a + b)[..|a + b| - 1] == a + b';
      DocCountConcat(a, b', k);
    }
  }

  lemma MultisetRemoveAt<T>(s: seq<T>, j: nat)
    requires j < |s|
    ensures multiset(s[..j] + s[j + 1..]) == multiset(s) - multiset{s[j]}
  {
    assert s == s[..j] + [s[j]] + s[j + 1..];
  }

  lemma DocCountRemoveAt<K(!new)>(d: seq<seq<K>>, j: nat, k: K)
    requires j < |d|
    ensures DocCount(d, k) == DocCount(d[..j] + d[j + 1..], k) + (if k in d[j] then 1 else 0)
  {
    assert d == d[..j] + [d[j]] + d[j + 1..];
    DocCountConcat(d[..j] + [d[j]], d[j + 1..], k);
    DocCountConcat(d[..j], [d[j]], k);
    DocCountConcat(d[..j], d[j + 1..], k);
    assert [d[j]][..0] == [];
  }

  lemma {:induction false} DocCountPermutation<K(!new)>(d1: seq<seq<K>>, d2: seq<seq<K>>, k: K)
    requires multiset(d1) == multiset(d2)
    ensures DocCount(d1, k) == DocCount(d2, k)
    decreases |d1|
  {
    if d1 == [] {
      assert |d2| == |multiset(d2)| == 0;
    } else {
      var n := |d1| - 1;
      var x := d1[n];
      assert x in multiset(d2);
      var j :| 0 <= j < |d2| && d2[j] == x;
      var d2' := d2[..j] + d2[j + 1..];
      MultisetRemoveAt(d1, n);
      MultisetRemoveAt(d2, j);
      assert d1[..n] + d1[n + 1..] == d1[..n];
      DocCountPermutation(d1[..n], d2', k);
      DocCountRemoveAt(d2, j, k);
    }
  }

  /** The counts do not depend on the order of the documents (only the key order does). */
  lemma DocumentOrderIrrelevant<K(!new)>(d1: seq<seq<K>>, d2: seq<seq<K>>)
    requires multiset(d1) == multiset(d2)
    ensures forall k :: Get(CountDocFrequencies(d1), k) == Get(CountDocFrequencies(d2), k)
    ensures forall k :: HasKey(CountDocFrequencies(d1), k) <==> HasKey(CountDocFrequencies(d2), k)
  {
    var r1 := CountDocFrequencies(d1);
    var r2 := CountDocFrequencies(d2);
    forall k
      ensures Get(r1, k) == Get(r2, k)
      ensures HasKey(r1, k) <==> HasKey(r2, k)
    {
      DocCountPermutation(d1, d2, k);
      DocCountBounds(d1, k);
      DocCountBounds(d2, k);
    }
  }

  lemma {:induction false} DocCountTokenSets<K(!new)>(d1: seq<seq<K>>, d2: seq<seq<K>>, k: K)
    requires |d1| == |d2|
    requires forall i :: 0 <= i < |d1| ==> (k in d1[i] <==> k in d2[i])
    ensures DocCount(d1, k) == DocCount(d2, k)
  {
    if d1 != [] {
      DocCountTokenSets(d1[..|d1| - 1], d2[..|d2| - 1], k);
    }
  }

  /** Repeating a token inside one document leaves every count unchanged. */
  lemma RepeatedTokenCountsOnce<K(!new)>(docs: seq<seq<K>>, i: nat, t: K)
    requires i < |docs|
    requires t in docs[i]
    ensures forall k :: Get(CountDocFrequencies(docs[i := docs[i] + [t]]), k)
                     == Get(CountDocFrequencies(docs), k)
  {
    forall k
      ensures Get(CountDocFrequencies(docs[i := docs[i] + [t]]), k) == Get(CountDocFrequencies(docs), k)
    {
      DocCountTokenSets(docs[i := docs[i] + [t]], docs, k);
    }
  }
}
