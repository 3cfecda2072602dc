/** The selector's documented scenarios, stated over concrete inputs. */
module SignificantTermsExamples {
  import opened Wrappers
  import opened Types
  import opened DocFrequencies
  import opened DocFrequenciesExamples
  import opened SignificantTerms
  import opened Heuristics

  const Background: WordUsageCounts := [("apple", 100), ("banana", 200), ("cherry", 50)]

  /** Counting `[["apple", "banana"], ["apple"]]` gives apple 2 and banana 1. */
  lemma CountExample()
    ensures Get(CountDocFrequencies([["apple", "banana"], ["apple"]]), "apple") == 2
    ensures Get(CountDocFrequencies([["apple", "banana"], ["apple"]]), "banana") == 1
  {
    var docs := [["apple", "banana"], ["apple"]];
    assert docs[..1] == [["apple", "banana"]];
    assert docs[..1][..0] == [];
  }

  /** `n` documents each holding just `t` count `t` once per document. */
  lemma {:induction false} SameTokenCounts(t: string, n: nat)
    requires n >= 1
    ensures CountDocFrequencies(seq(n, _ => [t])) == [(t, n)]
  {
    if n == 1 {
      CountAppendOne([], t);
      assert seq(1, _ => [t]) == [] + [[t]];
    } else {
      SameTokenCounts(t, n - 1);
      CountAppendOne(seq(n - 1, _ => [t]), t);
      assert seq(n, _ => [t]) == seq(n - 1, _ => [t]) + [[t]];
      var c: Counts<string> := [(t, n - 1)];
      assert c[1..] == [];
      assert Increment(c, t) == [(t, n)];
    }
  }

  lemma OneAppleCounts()
    ensures CountDocFrequencies([["apple"]]) == [("apple", 1)]
  {
    SameTokenCounts("apple", 1);
    assert seq(1, _ => ["apple"]) == [["apple"]];
  }

  lemma ThreeApplesCounts()
    ensures CountDocFrequencies([["apple"], ["apple"], ["apple"]]) == [("apple", 3)]
  {
    SameTokenCounts("apple", 3);
    assert seq(3, _ => ["apple"]) == [["apple"], ["apple"], ["apple"]];
  }

  /** Three documents containing "apple" against a background count of 2 raise the subset error. */
  lemma SubsetViolationExample()
    ensures ComputeSignificantTerms([["apple"], ["apple"], ["apple"]], [("apple", 2)], 1000, 2, Jlh, true, 2)
         == Failure(ForegroundExceedsBackground("apple", 2))
  {
    ThreeApplesCounts();
  }

  lemma OneEachCounts()
    ensures CountDocFrequencies([["apple"], ["banana"], ["cherry"]]) == [("apple", 1), ("banana", 1), ("cherry", 1)]
  {
    CountsOfThreeSingletons("apple", "banana", "cherry");
  }

  lemma BackgroundCounts()
    ensures Get(Background, "apple") == 100 && Get(Background, "banana") == 200 && Get(Background, "cherry") == 50
  {
    assert Background[1..] == [("banana", 200), ("cherry", 50)];
    assert Background[1..][1..] == [("cherry", 50)];
  }

  /** When every term occurs in a single document and `minDocCount` is 2, nothing is returned. */
  lemma BelowMinDocCountExample()
    ensures ComputeSignificantTerms([["apple"], ["banana"], ["cherry"]], Background, 1000, 3, Jlh, true, 2)
         == Success([])
  {
    OneEachCounts();
    BackgroundCounts();
    var fg: Counts<string> := [("apple", 1), ("banana", 1), ("cherry", 1)];
    var sel := Selection(3, Background, 1000, Jlh, true, 2);
    assert !sel.Violates(fg[0]) && !sel.Violates(fg[1]) && !sel.Violates(fg[2]);
    QualifiedNone(fg, sel);
    var none: seq<TermScore> := [];
    assert StableSort.SortDesc(none, ScoreKey) == [];
  }

  lemma DragonfruitCounts()
    ensures CountDocFrequencies([["dragonfruit"], ["dragonfruit", "apple"]]) == [("dragonfruit", 2), ("apple", 1)]
  {
    CountsOfTwoStreams("dragonfruit", "apple");
  }

  /** With `isSubset = false` a term missing from the background is still found. */
  lemma ForegroundOnlyTermExample()
    ensures ComputeSignificantTerms([["dragonfruit"], ["dragonfruit", "apple"]], Background, 1000, 2, Jlh, false, 2)
         == Success([TermScore("dragonfruit", JlhScore(2, 2, 2, 1002), 2, 2)])
  {
    DragonfruitCounts();
    JlhPositiveIff(2, 2, 2, 1002);
    var fg: Counts<string> := [("dragonfruit", 2), ("apple", 1)];
    var sel := Selection(2, Background, 1000, Jlh, false, 2);
    var t := TermScore("dragonfruit", JlhScore(2, 2, 2, 1002), 2, 2);
    assert fg[1..] == [("apple", 1)];
    assert |fg[1..][1..]| == 0;
    assert Get(Background, "dragonfruit") == 0;
    assert Jlh.score(2, 2, 2, 1002) == JlhScore(2, 2, 2, 1002);
    assert sel.Scored(fg[0]) == t;
    assert t.score > 0.0;
    assert !sel.Violates(fg[0]) && !sel.Violates(fg[1]);
    assert ScoreTerms(fg[1..], sel) == Success([]) by {
      assert fg[1..][0] == ("apple", 1);
    }
    assert [t] + [] == [t];
    assert ScoreTerms(fg, sel) == Success([t]);
    assert StableSort.SortDesc([t], ScoreKey) == [t] by {
      assert [t][1..] == [];
    }
  }
}
