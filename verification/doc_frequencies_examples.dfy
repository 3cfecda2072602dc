/**
 * Document-frequency tables of small document lists, over abstract keys.
 *
 * The scenario lemmas of the selector and of the sequence detector
 * instantiate these with strings and with pairs of strings.
 */
module DocFrequenciesExamples {
  import opened DocFrequencies

  /** Bumping the first key of a table adds one to its count and leaves the rest alone. */
  lemma IncrementHead<K(!new)>(k: K, n: nat, rest: Counts<K>)
    ensures Increment([(k, n)] + rest, k) == [(k, n + 1)] + rest
  {
    var c := [(k, n)] + rest;
    assert c[0].0 == k && c[1..] == rest;
  }

  /** Bumping the first key of a two-entry table. */
  lemma IncrementHeadOfTwo<K(!new)>(k: K, n: nat, k2: K, n2: nat)
    ensures Increment([(k, n), (k2, n2)], k) == [(k, n + 1), (k2, n2)]
  {
    var c: Counts<K> := [(k, n), (k2, n2)];
    assert c[0].0 == k && c[1..] == [(k2, n2)];
    assert [(k, n + 1)] + [(k2, n2)] == [(k, n + 1), (k2, n2)];
  }

  /** Bumping a key missing from a one-entry table appends it with count 1. */
  lemma IncrementNewAfterOne<K(!new)>(k: K, n: nat, a: K)
    requires a != k
    ensures Increment([(k, n)], a) == [(k, n), (a, 1)]
  {
    var c: Counts<K> := [(k, n)];
    assert c[1..] == [];
    assert Increment(c[1..], a) == [(a, 1)];
  }

  /** Bumping a key missing from a two-entry table appends it with count 1. */
  lemma IncrementNewAfterTwo<K(!new)>(k1: K, n1: nat, k2: K, n2: nat, a: K)
    requires a != k1 && a != k2
    ensures Increment([(k1, n1), (k2, n2)], a) == [(k1, n1), (k2, n2), (a, 1)]
  {
    var c: Counts<K> := [(k1, n1), (k2, n2)];
    assert c[1..] == [(k2, n2)];
    IncrementNewAfterOne(k2, n2, a);
  }

  lemma CountsOfOneStream<K(!new)>(p: K)
    ensures CountDocFrequencies([[p]]) == [(p, 1)]
  {
    var none: seq<seq<K>> := [];
    var c0: Counts<K> := [];
    CountAppendOne(none, p);
    assert none + [[p]] == [[p]];
    assert Increment(c0, p) == [(p, 1)];
  }

  /** Two one-token documents holding the same token. */
  lemma CountsOfRepeatedStream<K(!new)>(p: K)
    ensures CountDocFrequencies([[p], [p]]) == [(p, 2)]
  {
    var one: seq<seq<K>> := [[p]];
    var none: Counts<K> := [];
    assert CountDocFrequencies(one) == [(p, 1)] by { CountsOfOneStream(p); }
    assert CountDocFrequencies([[p], [p]]) == Increment([(p, 1)], p) by {
      CountAppendOne(one, p);
      assert one + [[p]] == [[p], [p]];
    }
    IncrementHead(p, 1, none);
  }

  /** Two one-token documents holding different tokens. */
  lemma CountsOfTwoSingletons<K(!new)>(p: K, q: K)
    requires p != q
    ensures CountDocFrequencies([[p], [q]]) == [(p, 1), (q, 1)]
  {
    var one: seq<seq<K>> := [[p]];
    assert CountDocFrequencies(one) == [(p, 1)] by { CountsOfOneStream(p); }
    assert CountDocFrequencies([[p], [q]]) == Increment([(p, 1)], q) by {
      CountAppendOne(one, q);
      assert one + [[q]] == [[p], [q]];
    }
    IncrementNewAfterOne(p, 1, q);
  }

  /** Three one-token documents holding three different tokens. */
  lemma CountsOfThreeSingletons<K(!new)>(p: K, q: K, r: K)
    requires p != q && p != r && q != r
    ensures CountDocFrequencies([[p], [q], [r]]) == [(p, 1), (q, 1), (r, 1)]
  {
    var two: seq<seq<K>> := [[p], [q]];
    assert CountDocFrequencies(two) == [(p, 1), (q, 1)] by { CountsOfTwoSingletons(p, q); }
    assert CountDocFrequencies([[p], [q], [r]]) == Increment([(p, 1), (q, 1)], r) by {
      CountAppendOne(two, r);
      assert two + [[r]] == [[p], [q], [r]];
    }
    IncrementNewAfterTwo(p, 1, q, 1, r);
  }

  /** `[p]` then `[p, q]`. */
  lemma CountsOfTwoStreams<K(!new)>(p: K, q: K)
    requires p != q
    ensures CountDocFrequencies([[p], [p, q]]) == [(p, 2), (q, 1)]
  {
    var one: seq<seq<K>> := [[p]];
    var none: Counts<K> := [];
    assert CountDocFrequencies(one) == [(p, 1)] by { CountsOfOneStream(p); }
    assert CountDocFrequencies([[p], [p, q]]) == Increment(Increment([(p, 1)], p), q) by {
      CountAppendTwo(one, p, q);
      assert one + [[p, q]] == [[p], [p, q]];
    }
    IncrementHead(p, 1, none);
    IncrementNewAfterOne(p, 2, q);
  }

  /** `[p]`, `[p, q]`, then an empty document, which counts nothing. */
  lemma CountsOfThreeStreams<K(!new)>(p: K, q: K)
    requires p != q
    ensures CountDocFrequencies([[p], [p, q], []]) == [(p, 2), (q, 1)]
  {
    var empty: seq<K> := [];
    var two: seq<seq<K>> := [[p], [p, q]];
    assert CountDocFrequencies(two) == [(p, 2), (q, 1)] by { CountsOfTwoStreams(p, q); }
    CountAppend(two, empty);
    assert two + [empty] == [[p], [p, q], []];
  }

  /** `[p]`, `[p, q]`, an empty document, then `[p, r]`. */
  lemma CountsOfFourStreams<K(!new)>(p: K, q: K, r: K)
    requires p != q && p != r && q != r
    ensures CountDocFrequencies([[p], [p, q], [], [p, r]]) == [(p, 3), (q, 1), (r, 1)]
  {
    var three: seq<seq<K>> := [[p], [p, q], []];
    assert CountDocFrequencies(three) == [(p, 2), (q, 1)] by { CountsOfThreeStreams(p, q); }
    assert CountDocFrequencies([[p], [p, q], [], [p, r]]) == Increment(Increment([(p, 2), (q, 1)], p), r) by {
      CountAppendTwo(three, p, r);
      assert three + [[p, r]] == [[p], [p, q], [], [p, r]];
    }
    IncrementHeadOfTwo(p, 2, q, 1);
    IncrementNewAfterTwo(p, 3, q, 1, r);
  }
}
