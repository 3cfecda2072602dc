/** The sequence detector's documented scenarios, stated over concrete inputs. */
module SequencesExamples {
  import opened Types
  import opened DocFrequencies
  import opened DocFrequenciesExamples
  import opened StableSort
  import opened Sequences

  const Impeachment: TermScore := TermScore("impeachment", 12.0, 2, 20)
  const Trial: TermScore := TermScore("trial", 8.0, 2, 25)

  lemma UnrelatedStreamsHaveNoPairs()
    ensures PairCounts([["something", "unrelated"], ["other", "words"]], TermSet([Impeachment, Trial])) == []
  {
    var top := [Impeachment, Trial];
    var terms := TermSet(top);
    assert "something" !in terms && "other" !in terms;
    assert AdjacentPairs(["something", "unrelated"], terms) == [] by {
      assert ["something", "unrelated"][1..] == ["unrelated"];
    }
    assert AdjacentPairs(["other", "words"], terms) == [] by {
      assert ["other", "words"][1..] == ["words"];
    }
    var streams := [["something", "unrelated"], ["other", "words"]];
    assert streams[..1] == [["something", "unrelated"]];
    assert streams[..1][..0] == [];
    assert PairStreams(streams, terms) == [[], []];
    var none: seq<Pair> := [];
    var noStreams: seq<seq<Pair>> := [];
    CountAppend(noStreams, none);
    assert noStreams + [none] == [none];
    CountAppend([none], none);
    assert [none] + [none] == [none, none];
  }

  /** Two groups already in score order stay in that order. */
  lemma SortTwoGroups(x: WordSequence, y: WordSequence)
    requires x.score >= y.score
    ensures SortDesc([x, y], SequenceScore) == [x, y]
  {
    assert SortedDesc([x, y], SequenceScore);
    SortDescOfSorted([x, y], SequenceScore);
  }

  /** With no adjacent pair of top terms, two top terms become two one-word groups, in input order. */
  lemma TwoSinglesGroups(a: TermScore, b: TermScore, streams: seq<seq<string>>, minDocCount: int)
    requires PairCounts(streams, TermSet([a, b])) == []
    ensures Groups([a, b], streams, minDocCount) == [Single(a), Single(b)]
  {
    var top := [a, b];
    var none: seq<(Pair, nat)> := [];
    assert Candidates(top, streams) == [];
    assert Accepted(top, streams, minDocCount) == none;
    assert TermsOf(none) == {};
    assert Phrases(top, none) == [];
    assert top[1..] == [b];
    assert top[1..][1..] == [];
    assert Singles(top, {}) == [Single(a), Single(b)];
  }

  /** Without a strong sequence, the terms stay single and keep their score order. */
  lemma KeepsSinglesWithoutStrongSequence()
    ensures DetectAndSortSequences([Impeachment, Trial], [["something", "unrelated"], ["other", "words"]], 2)
         == [["impeachment"], ["trial"]]
  {
    var streams := [["something", "unrelated"], ["other", "words"]];
    var groups := [Single(Impeachment), Single(Trial)];
    UnrelatedStreamsHaveNoPairs();
    TwoSinglesGroups(Impeachment, Trial, streams, 2);
    SortTwoGroups(Single(Impeachment), Single(Trial));
    assert TermLists(groups) == [["impeachment"], ["trial"]];
  }

  const Charles: TermScore := TermScore("charles", 2.0, 3, 200)
  const Dolan: TermScore := TermScore("dolan", 10.0, 3, 50)
  const Hbo: TermScore := TermScore("hbo", 3.0, 2, 200)
  const Cablevision: TermScore := TermScore("cablevision", 4.0, 2, 150)

  const Founders: seq<TermScore> := [Charles, Dolan, Hbo, Cablevision]
  const FounderStreams: seq<seq<string>> := [
    ["charles", "dolan", "founder"],
    ["charles", "dolan", "hbo"],
    ["hbo", "and", "cablevision"],
    ["charles", "dolan", "cablevision"]
  ]

  lemma FounderTerms()
    ensures TermSet(Founders) == {"charles", "dolan", "hbo", "cablevision"}
  {
    assert Founders[0].term == "charles" && Founders[1].term == "dolan";
    assert Founders[2].term == "hbo" && Founders[3].term == "cablevision";
  }

  lemma ThreeTokenPairs(x: string, y: string, z: string, terms: set<string>)
    ensures AdjacentPairs([x, y, z], terms)
         == (if x in terms && y in terms then [(x, y)] else [])
            + (if y in terms && z in terms then [(y, z)] else [])
  {
    assert [x, y, z][1..] == [y, z];
    assert [y, z][1..] == [z];
    var last := if y in terms && z in terms then [(y, z)] else [];
    assert AdjacentPairs([z], terms) == [];
    assert AdjacentPairs([y, z], terms) == last + [];
    assert last + [] == last;
  }

  lemma PairStreamsFour(s0: seq<string>, s1: seq<string>, s2: seq<string>, s3: seq<string>, terms: set<string>)
    ensures PairStreams([s0, s1, s2, s3], terms)
         == [AdjacentPairs(s0, terms), AdjacentPairs(s1, terms), AdjacentPairs(s2, terms), AdjacentPairs(s3, terms)]
  {
    var ps := PairStreams([s0, s1, s2, s3], terms);
    assert |ps| == 4;
  }

  const FounderTermSet: set<string> := {"charles", "dolan", "hbo", "cablevision"}

  lemma FounderTermMembership()
    ensures "charles" in FounderTermSet && "dolan" in FounderTermSet
    ensures "hbo" in FounderTermSet && "cablevision" in FounderTermSet
    ensures "founder" !in FounderTermSet && "and" !in FounderTermSet
  {
    assert "founder"[0] == 'f' && "and"[0] == 'a';
    assert "charles"[0] == 'c' && "dolan"[0] == 'd' && "hbo"[0] == 'h' && "cablevision"[0] == 'c';
    assert "founder" != "charles" && "founder" != "cablevision";
    assert "and" != "hbo";
  }

  lemma FounderStreamPairs()
    ensures AdjacentPairs(["charles", "dolan", "founder"], FounderTermSet) == [("charles", "dolan")]
    ensures AdjacentPairs(["charles", "dolan", "hbo"], FounderTermSet) == [("charles", "dolan"), ("dolan", "hbo")]
    ensures AdjacentPairs(["hbo", "and", "cablevision"], FounderTermSet) == []
    ensures AdjacentPairs(["charles", "dolan", "cablevision"], FounderTermSet)
         == [("charles", "dolan"), ("dolan", "cablevision")]
  {
    var terms := FounderTermSet;
    FounderTermMembership();
    assert AdjacentPairs(["charles", "dolan", "founder"], terms) == [("charles", "dolan")] by {
      ThreeTokenPairs("charles", "dolan", "founder", terms);
    }
    assert AdjacentPairs(["charles", "dolan", "hbo"], terms) == [("charles", "dolan"), ("dolan", "hbo")] by {
      ThreeTokenPairs("charles", "dolan", "hbo", terms);
    }
    assert AdjacentPairs(["hbo", "and", "cablevision"], terms) == [] by {
      ThreeTokenPairs("hbo", "and", "cablevision", terms);
    }
    assert AdjacentPairs(["charles", "dolan", "cablevision"], terms) == [("charles", "dolan"), ("dolan", "cablevision")] by {
      ThreeTokenPairs("charles", "dolan", "cablevision", terms);
    }
  }

  lemma FounderPairStreams()
    ensures PairStreams(FounderStreams, FounderTermSet)
         == [[("charles", "dolan")], [("charles", "dolan"), ("dolan", "hbo")], [],
             [("charles", "dolan"), ("dolan", "cablevision")]]
  {
    FounderStreamPairs();
    PairStreamsFour(["charles", "dolan", "founder"], ["charles", "dolan", "hbo"],
                    ["hbo", "and", "cablevision"], ["charles", "dolan", "cablevision"], FounderTermSet);
  }

  lemma FounderPairCounts()
    ensures PairCounts(FounderStreams, FounderTermSet)
         == [(("charles", "dolan"), 3), (("dolan", "hbo"), 1), (("dolan", "cablevision"), 1)]
  {
    FounderPairStreams();
    CountsOfFourStreams(("charles", "dolan"), ("dolan", "hbo"), ("dolan", "cablevision"));
  }

  /** Three candidates already in count order stay in that order. */
  lemma SortThreeCounts(p: Pair, q: Pair, r: Pair, n: nat, m: nat, k: nat)
    requires n >= m >= k
    ensures SortDesc([(p, n), (q, m), (r, k)], CountKey) == [(p, n), (q, m), (r, k)]
  {
    var c: Counts<Pair> := [(p, n), (q, m), (r, k)];
    assert SortedDesc(c, CountKey);
    SortDescOfSorted(c, CountKey);
  }

  /** Only the first, frequent pair is taken: the other two are too rare. */
  lemma GreedyTakesFrequentHead(p: Pair, q: Pair, r: Pair, n: nat, m: nat, k: nat, minDocCount: int)
    requires n >= minDocCount > m && minDocCount > k
    ensures Greedy([(p, n), (q, m), (r, k)], minDocCount) == [(p, n)]
  {
    var c: Counts<Pair> := [(p, n), (q, m), (r, k)];
    var none: seq<(Pair, nat)> := [];
    assert c[..2] == [(p, n), (q, m)];
    assert c[..2][..1] == [(p, n)];
    assert c[..2][..1][..0] == [];
    assert TermsOf(none) == {};
    assert Greedy(c[..2][..1], minDocCount) == [(p, n)];
  }

  lemma FounderAccepted()
    ensures Accepted(Founders, FounderStreams, 2) == [(("charles", "dolan"), 3)]
  {
    FounderTerms();
    FounderPairCounts();
    SortThreeCounts(("charles", "dolan"), ("dolan", "hbo"), ("dolan", "cablevision"), 3, 1, 1);
    GreedyTakesFrequentHead(("charles", "dolan"), ("dolan", "hbo"), ("dolan", "cablevision"), 3, 1, 1, 2);
  }

  lemma SortThreeGroups(x: WordSequence, y: WordSequence, z: WordSequence)
    requires x.score >= z.score > y.score
    ensures SortDesc([x, y, z], SequenceScore) == [x, z, y]
  {
    var key := SequenceScore;
    assert SortDesc([z], key) == [z] by {
      assert SortedDesc([z], key);
      SortDescOfSorted([z], key);
    }
    assert SortDesc([y, z], key) == [z, y] by {
      assert [y, z][0] == y && [y, z][1..] == [z];
      InsertPast(y, [z], key);
      assert [z][1..] == [];
      InsertFront(y, [], key);
      assert [z] + [y] == [z, y];
    }
    assert SortDesc([x, y, z], key) == [x, z, y] by {
      assert [x, y, z][0] == x && [x, y, z][1..] == [y, z];
      InsertFront(x, [z, y], key);
      assert [x] + [z, y] == [x, z, y];
    }
  }

  lemma FounderScores()
    ensures ScoreOf(Founders, "charles") == 2.0 && ScoreOf(Founders, "dolan") == 10.0
  {
    FounderTermMembership();
    ScoreOfLastEntry(Founders, 0);
    ScoreOfLastEntry(Founders, 1);
  }

  lemma SinglesOfFour(t0: TermScore, t1: TermScore, t2: TermScore, t3: TermScore, used: set<string>)
    requires t0.term in used && t1.term in used && t2.term !in used && t3.term !in used
    ensures Singles([t0, t1, t2, t3], used) == [Single(t2), Single(t3)]
  {
    var top := [t0, t1, t2, t3];
    assert top[1..] == [t1, t2, t3];
    assert top[1..][1..] == [t2, t3];
    assert top[1..][1..][1..] == [t3];
    assert top[1..][1..][1..][1..] == [];
    assert Singles([t3], used) == [Single(t3)];
    assert Singles([t2, t3], used) == [Single(t2), Single(t3)];
    assert Singles([t1, t2, t3], used) == [Single(t2), Single(t3)];
  }

  lemma OnePairAccepted(topTerms: seq<TermScore>, e: (Pair, nat))
    ensures TermsOf([e]) == {e.0.0, e.0.1}
    ensures Phrases(topTerms, [e]) == [Phrase(topTerms, e)]
  {
    assert [e][..0] == [];
  }

  lemma FounderSingles()
    ensures Singles(Founders, {"charles", "dolan"}) == [Single(Hbo), Single(Cablevision)]
  {
    assert "hbo" !in {"charles", "dolan"} && "cablevision" !in {"charles", "dolan"} by {
      assert "hbo"[0] == 'h' && "cablevision"[1] == 'a';
      assert "charles"[1] == 'h' && "dolan"[0] == 'd';
    }
    SinglesOfFour(Charles, Dolan, Hbo, Cablevision, {"charles", "dolan"});
  }

  lemma FounderGroups()
    ensures Groups(Founders, FounderStreams, 2)
         == [WordSequence(["charles", "dolan"], 10.0), Single(Hbo), Single(Cablevision)]
  {
    FounderAccepted();
    FounderScores();
    FounderSingles();
    OnePairAccepted(Founders, (("charles", "dolan"), 3));
  }

  lemma TermListsOfThree(x: WordSequence, y: WordSequence, z: WordSequence)
    ensures TermLists([x, y, z]) == [x.terms, y.terms, z.terms]
  {
  }

  /** "charles dolan" becomes a phrase ranked by dolan's score; the other terms follow by score. */
  lemma DetectsCommonBigram()
    ensures DetectAndSortSequences(Founders, FounderStreams, 2) == [["charles", "dolan"], ["cablevision"], ["hbo"]]
  {
    var phrase := WordSequence(["charles", "dolan"], 10.0);
    FounderGroups();
    SortThreeGroups(phrase, Single(Hbo), Single(Cablevision));
    TermListsOfThree(phrase, Single(Cablevision), Single(Hbo));
  }

  /** The pairs of `a a` when `a` is a top term: the self-pair `(a, a)`. */
  lemma SelfPairStreams(a: string, terms: set<string>)
    requires a in terms
    ensures PairStreams([[a, a], [a, a]], terms) == [[(a, a)], [(a, a)]]
  {
    assert [a, a][1..] == [a];
    assert AdjacentPairs([a], terms) == [];
    assert AdjacentPairs([a, a], terms) == [(a, a)] + [];
    var streams := [[a, a], [a, a]];
    var ps := PairStreams(streams, terms);
    assert streams[0] == [a, a] && streams[1] == [a, a];
    assert ps[0] == [(a, a)] && ps[1] == [(a, a)];
  }

  /**
   * Nothing stops a term from pairing with itself: when `a a` occurs in two
   * streams the result holds the phrase `[a, a]`, a group repeating one term.
   */
  lemma SelfPairBecomesPhrase(a: TermScore, b: TermScore)
    requires a.term != b.term
    ensures [a.term, a.term] in DetectAndSortSequences([a, b], [[a.term, a.term], [a.term, a.term]], 2)
  {
    var top := [a, b];
    var streams := [[a.term, a.term], [a.term, a.term]];
    var w := a.term;
    assert top[0].term == w;
    assert w in TermSet(top);
    SelfPairStreams(w, TermSet(top));
    CountsOfRepeatedStream((w, w));
    var c: Counts<Pair> := [((w, w), 2)];
    assert PairCounts(streams, TermSet(top)) == c;
    assert c[1..] == [];
    assert SortDesc(c, CountKey) == c;
    assert c[..0] == [];
    assert TermsOf([]) == {};
    assert Greedy(c, 2) == c;
    assert Accepted(top, streams, 2) == c;
    ResultGroups(top, streams, 2, [w, w]);
    assert c[0] in c;
  }
}
