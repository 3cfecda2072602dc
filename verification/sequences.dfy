/**
 * Phrase detection: `detectAndSortSequences`.
 *
 * Given the top terms and the token streams they came from, the detector
 * counts, per document, the adjacent pairs of top terms; walks the pairs from
 * most to least frequent and joins a pair into a two-word phrase when it
 * occurs in at least `minDocCount` documents and neither of its terms has
 * been joined yet; keeps every other top term as a one-word group; and sorts
 * all groups by score. A phrase scores as its higher-scoring term.
 *
 * The source keys pair counts by the string `a|b` and splits it again; here a
 * pair is a tuple, so the key never has to be split.
 */
module Sequences {
  import opened Types
  import opened DocFrequencies
  import opened StableSort

  /** Two adjacent tokens `(tokens[i], tokens[i + 1])`. */
  type Pair = (string, string)

  /** A group of terms (one term or a two-term phrase) with its ranking score. */
  datatype WordSequence = WordSequence(terms: seq<string>, score: real)

  function MaxReal(a: real, b: real): real { if a >= b then a else b }

  /** `new Set(topTerms.map(t => t.term))`. */
  function TermSet(topTerms: seq<TermScore>): set<string> {
    set i | 0 <= i < |topTerms| :: topTerms[i].term
  }

  /**
   * `termScoreMap.get(w).score`: the map is built from the entries in order,
   * so the LAST entry carrying `w` decides. An absent term scores 0.
   */
  function ScoreOf(topTerms: seq<TermScore>, w: string): real {
    if topTerms == [] then 0.0
    else if topTerms[|topTerms| - 1].term == w then topTerms[|topTerms| - 1].score
    else ScoreOf(topTerms[..|topTerms| - 1], w)
  }

  /** The score looked up for a term is that of its last entry. */
  lemma {:induction false} ScoreOfLastEntry(topTerms: seq<TermScore>, i: nat)
    requires i < |topTerms|
    requires forall j :: i < j < |topTerms| ==> topTerms[j].term != topTerms[i].term
    ensures ScoreOf(topTerms, topTerms[i].term) == topTerms[i].score
  {
    if i < |topTerms| - 1 {
      var prefix := topTerms[..|topTerms| - 1];
      assert prefix[i] == topTerms[i];
      ScoreOfLastEntry(prefix, i);
    }
  }

  /** `b` immediately follows `a` somewhere in `tokens`. */
  ghost predicate Adjacent(tokens: seq<string>, a: string, b: string) {
    exists i :: 0 <= i < |tokens| - 1 && tokens[i] == a && tokens[i + 1] == b
  }

  lemma AdjacentTail(tokens: seq<string>, a: string, b: string)
    requires |tokens| >= 2
    ensures Adjacent(tokens, a, b) <==> (tokens[0] == a && tokens[1] == b) || Adjacent(tokens[1..], a, b)
  {
    if Adjacent(tokens, a, b) {
      var i :| 0 <= i < |tokens| - 1 && tokens[i] == a && tokens[i + 1] == b;
      if i > 0 {
        assert tokens[1..][i - 1] == a && tokens[1..][i] == b;
      }
    }
    if Adjacent(tokens[1..], a, b) {
      var i :| 0 <= i < |tokens[1..]| - 1 && tokens[1..][i] == a && tokens[1..][i + 1] == b;
      assert tokens[i + 1] == a && tokens[i + 2] == b;
    }
  }

  /**
   * The inner loop over one token stream: every adjacent pair whose two
   * tokens are both top terms, in stream order (repeats included).
   */
  function AdjacentPairs(tokens: seq<string>, terms: set<string>): (r: seq<Pair>)
    ensures forall a, b :: (a, b) in r <==> a in terms && b in terms && Adjacent(tokens, a, b)
  {
    if |tokens| < 2 then []
    else
      var rest := AdjacentPairs(tokens[1..], terms);
      var here := if tokens[0] in terms && tokens[1] in terms then [(tokens[0], tokens[1])] else [];
      assert forall a, b :: Adjacent(tokens, a, b) <==> (tokens[0] == a && tokens[1] == b) || Adjacent(tokens[1..], a, b) by {
        forall a, b {
          AdjacentTail(tokens, a, b);
        }
      }
      here + rest
  }

  /** The pairs of every token stream, one list per stream. */
  function PairStreams(tokenStreams: seq<seq<string>>, terms: set<string>): (r: seq<seq<Pair>>)
    ensures |r| == |tokenStreams|
    ensures forall i :: 0 <= i < |r| ==> r[i] == AdjacentPairs(tokenStreams[i], terms)
  {
    if tokenStreams == [] then []
    else PairStreams(tokenStreams[..|tokenStreams| - 1], terms) + [AdjacentPairs(tokenStreams[|tokenStreams| - 1], terms)]
  }

  /**
   * `sequenceCounts`: per stream, each distinct pair bumps its count once
   * (the per-stream `seen` set), and pairs keep first-sighting order.
   */
  function PairCounts(tokenStreams: seq<seq<string>>, terms: set<string>): Counts<Pair> {
    CountDocFrequencies(PairStreams(tokenStreams, terms))
  }

  /** Reference definition: the number of streams in which `b` immediately follows `a`. */
  ghost function AdjacencyDocCount(tokenStreams: seq<seq<string>>, a: string, b: string): nat {
    if tokenStreams == [] then 0
    else AdjacencyDocCount(tokenStreams[..|tokenStreams| - 1], a, b)
         + (if Adjacent(tokenStreams[|tokenStreams| - 1], a, b) then 1 else 0)
  }

  lemma {:induction false} PairDocCountIsAdjacencyCount(tokenStreams: seq<seq<string>>, terms: set<string>, a: string, b: string)
    requires a in terms && b in terms
    ensures DocCount(PairStreams(tokenStreams, terms), (a, b)) == AdjacencyDocCount(tokenStreams, a, b)
  {
    if tokenStreams != [] {
      var prefix := tokenStreams[..|tokenStreams| - 1];
      var ps := PairStreams(tokenStreams, terms);
      assert ps[..|ps| - 1] == PairStreams(prefix, terms);
      PairDocCountIsAdjacencyCount(prefix, terms, a, b);
    }
  }

  lemma {:induction false} AdjacencyDocCountBound(tokenStreams: seq<seq<string>>, a: string, b: string)
    ensures AdjacencyDocCount(tokenStreams, a, b) <= |tokenStreams|
  {
    if tokenStreams != [] {
      AdjacencyDocCountBound(tokenStreams[..|tokenStreams| - 1], a, b);
    }
  }

  /**
   * A pair's count is the number of streams in which its second term
   * immediately follows its first, when both are top terms; other pairs
   * are never counted.
   */
  lemma PairCountIsAdjacencyCount(tokenStreams: seq<seq<string>>, terms: set<string>, a: string, b: string)
    ensures Get(PairCounts(tokenStreams, terms), (a, b))
         == if a in terms && b in terms then AdjacencyDocCount(tokenStreams, a, b) else 0
  {
    var ps := PairStreams(tokenStreams, terms);
    if a in terms && b in terms {
      PairDocCountIsAdjacencyCount(tokenStreams, terms, a, b);
    } else {
      DocCountBounds(ps, (a, b));
    }
  }

  /** Every stored pair is a pair of top terms with its adjacency count, which is at least 1. */
  lemma PairCountEntry(tokenStreams: seq<seq<string>>, terms: set<string>, e: (Pair, nat))
    requires e in PairCounts(tokenStreams, terms)
    ensures e.0.0 in terms && e.0.1 in terms
    ensures e.1 == AdjacencyDocCount(tokenStreams, e.0.0, e.0.1) >= 1
  {
    var c := PairCounts(tokenStreams, terms);
    var i :| 0 <= i < |c| && c[i] == e;
    GetFindsEntry(c, i);
    HasKeyIndex(c, e.0);
    var ps := PairStreams(tokenStreams, terms);
    var d :| 0 <= d < |ps| && e.0 in ps[d];
    assert (e.0.0, e.0.1) in AdjacentPairs(tokenStreams[d], terms);
    PairCountIsAdjacencyCount(tokenStreams, terms, e.0.0, e.0.1);
    DocCountBounds(ps, e.0);
  }

  /** Two pairs share a term. */
  predicate Overlaps(x: Pair, y: Pair) {
    x.0 == y.0 || x.0 == y.1 || x.1 == y.0 || x.1 == y.1
  }

  /** `usedTerms` after accepting `accepted`: every term of every accepted pair. */
  function TermsOf(accepted: seq<(Pair, nat)>): (r: set<string>)
    ensures forall w :: w in r <==> exists i :: 0 <= i < |accepted| && (accepted[i].0.0 == w || accepted[i].0.1 == w)
  {
    if accepted == [] then {}
    else
      var prefix := accepted[..|accepted| - 1];
      assert forall i :: 0 <= i < |prefix| ==> prefix[i] == accepted[i];
      TermsOf(prefix) + {accepted[|accepted| - 1].0.0, accepted[|accepted| - 1].0.1}
  }

  /** The acceptance test of the `forEach`: frequent enough, and neither term used yet. */
  predicate Takes(candidate: (Pair, nat), minDocCount: int, used: set<string>) {
    candidate.1 >= minDocCount && candidate.0.0 !in used && candidate.0.1 !in used
  }

  /**
   * The `forEach` over the sorted candidates: the accepted pairs, in
   * acceptance order. Accepted pairs are frequent candidates that share no
   * term with one another.
   */
  function Greedy(candidates: Counts<Pair>, minDocCount: int): (r: seq<(Pair, nat)>)
    ensures forall e :: e in r ==> e in candidates && e.1 >= minDocCount
    ensures forall i, j :: 0 <= i < j < |r| ==> !Overlaps(r[i].0, r[j].0)
  {
    if candidates == [] then []
    else
      var accepted := Greedy(candidates[..|candidates| - 1], minDocCount);
      var c := candidates[|candidates| - 1];
      if Takes(c, minDocCount, TermsOf(accepted)) then
        assert forall i :: 0 <= i < |accepted| ==> !Overlaps(accepted[i].0, c.0);
        accepted + [c]
      else accepted
  }

  /** Accepting is never undone: the pairs accepted from a prefix stay accepted. */
  lemma {:induction false} GreedyPrefix(candidates: Counts<Pair>, minDocCount: int, k: nat)
    requires k <= |candidates|
    ensures forall e :: e in Greedy(candidates[..k], minDocCount) ==> e in Greedy(candidates, minDocCount)
    decreases |candidates|
  {
    if k < |candidates| {
      var prefix := candidates[..|candidates| - 1];
      assert prefix[..k] == candidates[..k];
      GreedyPrefix(prefix, minDocCount, k);
    } else {
      assert candidates[..k] == candidates;
    }
  }

  /**
   * A frequent candidate that was not accepted shares a term with a pair
   * accepted before it.
   */
  lemma GreedyIsMaximal(candidates: Counts<Pair>, minDocCount: int, k: nat)
    requires k < |candidates|
    requires candidates[k].1 >= minDocCount
    requires candidates[k] !in Greedy(candidates, minDocCount)
    ensures exists j :: 0 <= j < k && candidates[j] in Greedy(candidates, minDocCount)
                        && Overlaps(candidates[j].0, candidates[k].0)
  {
    var before := Greedy(candidates[..k], minDocCount);
    assert !Takes(candidates[k], minDocCount, TermsOf(before)) by {
      var p := candidates[..k + 1];
      assert p[..k] == candidates[..k] && p[k] == candidates[k];
      GreedyPrefix(candidates, minDocCount, k + 1);
    }
    GreedyPrefix(candidates, minDocCount, k);
    var w := if candidates[k].0.0 in TermsOf(before) then candidates[k].0.0 else candidates[k].0.1;
    var i :| 0 <= i < |before| && (before[i].0.0 == w || before[i].0.1 == w);
    assert before[i] in candidates[..k];
    var j :| 0 <= j < k && candidates[j] == before[i];
    assert Overlaps(candidates[j].0, candidates[k].0);
  }

  /** `{ terms: [t.term], score: t.score }`: the one-word group of an unjoined top term. */
  function Single(t: TermScore): WordSequence {
    WordSequence([t.term], t.score)
  }

  /** The phrase of an accepted pair, ranked by its higher-scoring term. */
  function Phrase(topTerms: seq<TermScore>, e: (Pair, nat)): WordSequence {
    WordSequence([e.0.0, e.0.1], MaxReal(ScoreOf(topTerms, e.0.0), ScoreOf(topTerms, e.0.1)))
  }

  /** `candidateSequences`: one phrase per accepted pair, in acceptance order. */
  function Phrases(topTerms: seq<TermScore>, accepted: seq<(Pair, nat)>): seq<WordSequence> {
    seq(|accepted|, i requires 0 <= i < |accepted| => Phrase(topTerms, accepted[i]))
  }

  /** `remainingTerms`: the top terms not used by a phrase, in input order. */
  function Singles(topTerms: seq<TermScore>, used: set<string>): (r: seq<WordSequence>)
    ensures forall g :: g in r <==> exists i :: 0 <= i < |topTerms| && topTerms[i].term !in used && g == Single(topTerms[i])
    ensures |r| <= |topTerms|
  {
    if topTerms == [] then []
    else
      var rest := Singles(topTerms[1..], used);
      assert forall i :: 1 <= i < |topTerms| ==> topTerms[i] == topTerms[1..][i - 1];
      (if topTerms[0].term in used then [] else [Single(topTerms[0])]) + rest
  }

  function CountKey(e: (Pair, nat)): real { e.1 as real }

  function SequenceScore(g: WordSequence): real { g.score }

  /** The pair counts, stably sorted from most to least frequent. */
  function Candidates(topTerms: seq<TermScore>, tokenStreams: seq<seq<string>>): (r: Counts<Pair>)
    ensures SortedDesc(r, CountKey)
    ensures multiset(r) == multiset(PairCounts(tokenStreams, TermSet(topTerms)))
  {
    SortDesc(PairCounts(tokenStreams, TermSet(topTerms)), CountKey)
  }

  function Accepted(topTerms: seq<TermScore>, tokenStreams: seq<seq<string>>, minDocCount: int): seq<(Pair, nat)> {
    Greedy(Candidates(topTerms, tokenStreams), minDocCount)
  }

  /** `allSequences` before sorting: phrases, then unjoined terms. */
  function Groups(topTerms: seq<TermScore>, tokenStreams: seq<seq<string>>, minDocCount: int): seq<WordSequence> {
    var accepted := Accepted(topTerms, tokenStreams, minDocCount);
    Phrases(topTerms, accepted) + Singles(topTerms, TermsOf(accepted))
  }

  /** `allSequences` after the stable sort by non-increasing score. */
  function Ranked(topTerms: seq<TermScore>, tokenStreams: seq<seq<string>>, minDocCount: int): (r: seq<WordSequence>)
    ensures SortedDesc(r, SequenceScore)
    ensures multiset(r) == multiset(Groups(topTerms, tokenStreams, minDocCount))
  {
    SortDesc(Groups(topTerms, tokenStreams, minDocCount), SequenceScore)
  }

  /** `allSequences.map(seq => seq.terms)`. */
  function TermLists(groups: seq<WordSequence>): seq<seq<string>> {
    seq(|groups|, i requires 0 <= i < |groups| => groups[i].terms)
  }

  /** `detectAndSortSequences`: with at most one top term, each term is its own group. */
  function DetectAndSortSequences(topTerms: seq<TermScore>, tokenStreams: seq<seq<string>>, minDocCount: int)
    : (r: seq<seq<string>>)
    ensures |topTerms| <= 1 ==> |r| == |topTerms| && forall i :: 0 <= i < |r| ==> r[i] == [topTerms[i].term]
  {
    if |topTerms| <= 1 then seq(|topTerms|, i requires 0 <= i < |topTerms| => [topTerms[i].term])
    else TermLists(Ranked(topTerms, tokenStreams, minDocCount))
  }

  lemma TermListsMember(groups: seq<WordSequence>, g: seq<string>)
    ensures g in TermLists(SortDesc(groups, SequenceScore)) <==> exists x :: x in groups && x.terms == g
  {
    var ranked := SortDesc(groups, SequenceScore);
    var r := TermLists(ranked);
    if g in r {
      var k :| 0 <= k < |r| && r[k] == g;
      SortDescMember(groups, SequenceScore, ranked[k]);
    }
    if exists x :: x in groups && x.terms == g {
      var x :| x in groups && x.terms == g;
      SortDescMember(groups, SequenceScore, x);
      var k :| 0 <= k < |ranked| && ranked[k] == x;
      assert r[k] == g;
    }
  }

  lemma PhraseTerms(topTerms: seq<TermScore>, accepted: seq<(Pair, nat)>, g: seq<string>)
    ensures (exists x :: x in Phrases(topTerms, accepted) && x.terms == g)
        <==> exists e :: e in accepted && g == [e.0.0, e.0.1]
  {
    var phrases := Phrases(topTerms, accepted);
    if exists x :: x in phrases && x.terms == g {
      var x :| x in phrases && x.terms == g;
      var p :| 0 <= p < |phrases| && phrases[p] == x;
      assert accepted[p] in accepted;
    }
    if exists e :: e in accepted && g == [e.0.0, e.0.1] {
      var e :| e in accepted && g == [e.0.0, e.0.1];
      var p :| 0 <= p < |accepted| && accepted[p] == e;
      assert phrases[p] in phrases;
    }
  }

  lemma SingleTerms(topTerms: seq<TermScore>, used: set<string>, g: seq<string>)
    ensures (exists x :: x in Singles(topTerms, used) && x.terms == g)
        <==> exists i :: 0 <= i < |topTerms| && topTerms[i].term !in used && g == [topTerms[i].term]
  {
    var singles := Singles(topTerms, used);
    if exists i :: 0 <= i < |topTerms| && topTerms[i].term !in used && g == [topTerms[i].term] {
      var i :| 0 <= i < |topTerms| && topTerms[i].term !in used && g == [topTerms[i].term];
      assert Single(topTerms[i]) in singles;
    }
  }

  /**
   * Once grouping happens (two or more top terms), the result holds exactly
   * the accepted pairs as two-word phrases and the terms no phrase used as
   * one-word groups.
   */
  lemma ResultGroups(topTerms: seq<TermScore>, tokenStreams: seq<seq<string>>, minDocCount: int, g: seq<string>)
    requires |topTerms| >= 2
    ensures g in DetectAndSortSequences(topTerms, tokenStreams, minDocCount)
        <==> (exists e :: e in Accepted(topTerms, tokenStreams, minDocCount) && g == [e.0.0, e.0.1])
             || (exists i :: 0 <= i < |topTerms| && topTerms[i].term !in TermsOf(Accepted(topTerms, tokenStreams, minDocCount))
                             && g == [topTerms[i].term])
  {
    var accepted := Accepted(topTerms, tokenStreams, minDocCount);
    var phrases := Phrases(topTerms, accepted);
    var singles := Singles(topTerms, TermsOf(accepted));
    var groups := Groups(topTerms, tokenStreams, minDocCount);
    assert groups == phrases + singles;
    TermListsMember(groups, g);
    PhraseTerms(topTerms, accepted, g);
    SingleTerms(topTerms, TermsOf(accepted), g);
    assert (exists x :: x in groups && x.terms == g)
       <==> (exists x :: x in phrases && x.terms == g) || (exists x :: x in singles && x.terms == g);
  }

  /** Every group is one top term or a phrase of two top terms. */
  lemma GroupsAreTermsOrPhrases(topTerms: seq<TermScore>, tokenStreams: seq<seq<string>>, minDocCount: int, g: seq<string>)
    requires g in DetectAndSortSequences(topTerms, tokenStreams, minDocCount)
    ensures |g| == 1 || |g| == 2
    ensures forall w :: w in g ==> w in TermSet(topTerms)
  {
    if |topTerms| >= 2 {
      ResultGroups(topTerms, tokenStreams, minDocCount, g);
      var accepted := Accepted(topTerms, tokenStreams, minDocCount);
      if exists e :: e in accepted && g == [e.0.0, e.0.1] {
        var e :| e in accepted && g == [e.0.0, e.0.1];
        SortDescMember(PairCounts(tokenStreams, TermSet(topTerms)), CountKey, e);
        PairCountEntry(tokenStreams, TermSet(topTerms), e);
      }
    } else {
      var r := DetectAndSortSequences(topTerms, tokenStreams, minDocCount);
      var k :| 0 <= k < |r| && r[k] == g;
      assert g == [topTerms[k].term];
    }
  }

  /** No top term is lost: each one lands in some group. */
  lemma EveryTermIsGrouped(topTerms: seq<TermScore>, tokenStreams: seq<seq<string>>, minDocCount: int, i: nat)
    requires i < |topTerms|
    ensures exists g :: g in DetectAndSortSequences(topTerms, tokenStreams, minDocCount) && topTerms[i].term in g
  {
    var r := DetectAndSortSequences(topTerms, tokenStreams, minDocCount);
    var w := topTerms[i].term;
    if |topTerms| <= 1 {
      assert w in r[i];
    } else {
      var accepted := Accepted(topTerms, tokenStreams, minDocCount);
      if w in TermsOf(accepted) {
        var p :| 0 <= p < |accepted| && (accepted[p].0.0 == w || accepted[p].0.1 == w);
        var e := accepted[p];
        var g := [e.0.0, e.0.1];
        assert g in r by {
          ResultGroups(topTerms, tokenStreams, minDocCount, g);
          assert e in accepted;
        }
        TwoListMember(e.0.0, e.0.1, w);
        assert w in g;
      } else {
        var g := [w];
        assert g in r by {
          ResultGroups(topTerms, tokenStreams, minDocCount, g);
        }
        assert w in g;
      }
    }
  }

  /**
   * A phrase joins two top terms that are adjacent, in that order, in at
   * least `minDocCount` of the streams (and in at least one).
   */
  lemma PhrasesAreFrequentAdjacencies(topTerms: seq<TermScore>, tokenStreams: seq<seq<string>>, minDocCount: int, g: seq<string>)
    requires |topTerms| >= 2
    requires g in DetectAndSortSequences(topTerms, tokenStreams, minDocCount)
    requires |g| == 2
    ensures g[0] in TermSet(topTerms) && g[1] in TermSet(topTerms)
    ensures AdjacencyDocCount(tokenStreams, g[0], g[1]) >= minDocCount
    ensures AdjacencyDocCount(tokenStreams, g[0], g[1]) >= 1
  {
    ResultGroups(topTerms, tokenStreams, minDocCount, g);
    var e :| e in Accepted(topTerms, tokenStreams, minDocCount) && g == [e.0.0, e.0.1];
    SortDescMember(PairCounts(tokenStreams, TermSet(topTerms)), CountKey, e);
    PairCountEntry(tokenStreams, TermSet(topTerms), e);
  }

  lemma AcceptedDisjoint(accepted: seq<(Pair, nat)>, e1: (Pair, nat), e2: (Pair, nat))
    requires forall i, j :: 0 <= i < j < |accepted| ==> !Overlaps(accepted[i].0, accepted[j].0)
    requires e1 in accepted && e2 in accepted && e1.0 != e2.0
    ensures !Overlaps(e1.0, e2.0)
  {
    var p1 :| 0 <= p1 < |accepted| && accepted[p1] == e1;
    var p2 :| 0 <= p2 < |accepted| && accepted[p2] == e2;
    if p1 < p2 {
      assert !Overlaps(accepted[p1].0, accepted[p2].0);
    } else {
      assert !Overlaps(accepted[p2].0, accepted[p1].0);
    }
  }

  lemma TermsOfCovers(accepted: seq<(Pair, nat)>, e: (Pair, nat))
    requires e in accepted
    ensures e.0.0 in TermsOf(accepted) && e.0.1 in TermsOf(accepted)
  {
    var p :| 0 <= p < |accepted| && accepted[p] == e;
  }

  lemma TwoListMember(a: string, b: string, w: string)
    ensures w in [a, b] <==> w == a || w == b
  {
    assert [a, b][0] == a && [a, b][1] == b;
  }

  lemma GroupsDisjoint(topTerms: seq<TermScore>, accepted: seq<(Pair, nat)>, g1: seq<string>, g2: seq<string>)
    requires forall i, j :: 0 <= i < j < |accepted| ==> !Overlaps(accepted[i].0, accepted[j].0)
    requires exists e :: e in accepted && g2 == [e.0.0, e.0.1]
    requires (exists e :: e in accepted && g1 == [e.0.0, e.0.1])
             || (exists i :: 0 <= i < |topTerms| && topTerms[i].term !in TermsOf(accepted) && g1 == [topTerms[i].term])
    requires g1 != g2
    ensures forall w :: w in g1 ==> w !in g2
  {
    var e2 :| e2 in accepted && g2 == [e2.0.0, e2.0.1];
    if exists e :: e in accepted && g1 == [e.0.0, e.0.1] {
      var e1 :| e1 in accepted && g1 == [e1.0.0, e1.0.1];
      assert e1.0 != e2.0;
      AcceptedDisjoint(accepted, e1, e2);
      forall w | w in g1 ensures w !in g2 {
        TwoListMember(e1.0.0, e1.0.1, w);
        TwoListMember(e2.0.0, e2.0.1, w);
      }
    } else {
      var i :| 0 <= i < |topTerms| && topTerms[i].term !in TermsOf(accepted) && g1 == [topTerms[i].term];
      TermsOfCovers(accepted, e2);
      forall w | w in g1 ensures w !in g2 {
        assert w == topTerms[i].term;
        TwoListMember(e2.0.0, e2.0.1, w);
      }
    }
  }

  /** Distinct phrases share no term, and no one-word group repeats a phrase's term. */
  lemma PhrasesAreDisjoint(topTerms: seq<TermScore>, tokenStreams: seq<seq<string>>, minDocCount: int,
                           g1: seq<string>, g2: seq<string>)
    requires |topTerms| >= 2
    requires g1 in DetectAndSortSequences(topTerms, tokenStreams, minDocCount)
    requires g2 in DetectAndSortSequences(topTerms, tokenStreams, minDocCount)
    requires |g2| == 2 && g1 != g2
    ensures forall w :: w in g1 ==> w !in g2
  {
    var accepted := Accepted(topTerms, tokenStreams, minDocCount);
    ResultGroups(topTerms, tokenStreams, minDocCount, g2);
    ResultGroups(topTerms, tokenStreams, minDocCount, g1);
    GroupsDisjoint(topTerms, accepted, g1, g2);
  }

  /**
   * Greedy maximality: a pair of top terms adjacent in enough streams that
   * did not become a phrase shares a term with a phrase whose pair is
   * adjacent in at least as many streams.
   */
  lemma RejectedPairIsBlocked(topTerms: seq<TermScore>, tokenStreams: seq<seq<string>>, minDocCount: int, a: string, b: string)
    requires |topTerms| >= 2
    requires a in TermSet(topTerms) && b in TermSet(topTerms)
    requires AdjacencyDocCount(tokenStreams, a, b) >= minDocCount
    requires AdjacencyDocCount(tokenStreams, a, b) >= 1
    requires [a, b] !in DetectAndSortSequences(topTerms, tokenStreams, minDocCount)
    ensures exists c, d :: ([c, d] in DetectAndSortSequences(topTerms, tokenStreams, minDocCount)
                            && Overlaps((c, d), (a, b))
                            && AdjacencyDocCount(tokenStreams, c, d) >= AdjacencyDocCount(tokenStreams, a, b))
  {
    var terms := TermSet(topTerms);
    var counts := PairCounts(tokenStreams, terms);
    var candidates := Candidates(topTerms, tokenStreams);
    var accepted := Accepted(topTerms, tokenStreams, minDocCount);
    var n := AdjacencyDocCount(tokenStreams, a, b);
    PairCountIsAdjacencyCount(tokenStreams, terms, a, b);
    if !HasKey(counts, (a, b)) {
      GetAbsent(counts, (a, b));
    }
    HasKeyIndex(counts, (a, b));
    var i :| 0 <= i < |counts| && counts[i].0 == (a, b);
    GetFindsEntry(counts, i);
    var e := counts[i];
    assert e == ((a, b), n);
    SortDescMember(counts, CountKey, e);
    var k :| 0 <= k < |candidates| && candidates[k] == e;
    ResultGroups(topTerms, tokenStreams, minDocCount, [a, b]);
    assert [a, b] == [e.0.0, e.0.1];
    GreedyIsMaximal(candidates, minDocCount, k);
    var j :| 0 <= j < k && candidates[j] in accepted && Overlaps(candidates[j].0, candidates[k].0);
    assert CountKey(candidates[j]) >= CountKey(candidates[k]);
    var f := candidates[j];
    SortDescMember(counts, CountKey, f);
    PairCountEntry(tokenStreams, terms, f);
    ResultGroups(topTerms, tokenStreams, minDocCount, [f.0.0, f.0.1]);
    assert [f.0.0, f.0.1] in DetectAndSortSequences(topTerms, tokenStreams, minDocCount);
    assert Overlaps((f.0.0, f.0.1), (a, b));
  }

  /** The ranking score of a group: its single term's score, or the higher of a phrase's two. */
  function GroupScore(topTerms: seq<TermScore>, g: seq<string>): real {
    if |g| == 1 then ScoreOf(topTerms, g[0])
    else if |g| == 2 then MaxReal(ScoreOf(topTerms, g[0]), ScoreOf(topTerms, g[1]))
    else 0.0
  }

  /** Each group carries the ranking score of its terms (terms being distinct). */
  lemma GroupScoreMatches(topTerms: seq<TermScore>, tokenStreams: seq<seq<string>>, minDocCount: int, x: WordSequence)
    requires forall i, j :: 0 <= i < j < |topTerms| ==> topTerms[i].term != topTerms[j].term
    requires x in Groups(topTerms, tokenStreams, minDocCount)
    ensures x.score == GroupScore(topTerms, x.terms)
  {
    var accepted := Accepted(topTerms, tokenStreams, minDocCount);
    var phrases := Phrases(topTerms, accepted);
    if x !in phrases {
      var i :| 0 <= i < |topTerms| && topTerms[i].term !in TermsOf(accepted) && x == Single(topTerms[i]);
      ScoreOfLastEntry(topTerms, i);
    }
  }

  /**
   * With distinct top terms, groups come out from highest to lowest ranking
   * score: a phrase ranks as its higher-scoring term.
   */
  lemma ResultOrderedByGroupScore(topTerms: seq<TermScore>, tokenStreams: seq<seq<string>>, minDocCount: int, i: nat, j: nat)
    requires forall i, j :: 0 <= i < j < |topTerms| ==> topTerms[i].term != topTerms[j].term
    requires i < j < |DetectAndSortSequences(topTerms, tokenStreams, minDocCount)|
    ensures GroupScore(topTerms, DetectAndSortSequences(topTerms, tokenStreams, minDocCount)[i])
         >= GroupScore(topTerms, DetectAndSortSequences(topTerms, tokenStreams, minDocCount)[j])
  {
    if |topTerms| >= 2 {
      var groups := Groups(topTerms, tokenStreams, minDocCount);
      var ranked := Ranked(topTerms, tokenStreams, minDocCount);
      SortDescMember(groups, SequenceScore, ranked[i]);
      SortDescMember(groups, SequenceScore, ranked[j]);
      GroupScoreMatches(topTerms, tokenStreams, minDocCount, ranked[i]);
      GroupScoreMatches(topTerms, tokenStreams, minDocCount, ranked[j]);
      assert SequenceScore(ranked[i]) >= SequenceScore(ranked[j]);
    }
  }

  /**
   * Groups of equal score keep their order before sorting: phrases in
   * acceptance order, then one-word groups in input order.
   */
  lemma TiesKeepGroupOrder(topTerms: seq<TermScore>, tokenStreams: seq<seq<string>>, minDocCount: int, a: nat, b: nat)
    requires a < b < |Ranked(topTerms, tokenStreams, minDocCount)|
    requires Ranked(topTerms, tokenStreams, minDocCount)[a].score == Ranked(topTerms, tokenStreams, minDocCount)[b].score
    ensures exists a', b' :: (0 <= a' < b' < |Groups(topTerms, tokenStreams, minDocCount)|
      && Groups(topTerms, tokenStreams, minDocCount)[a'] == Ranked(topTerms, tokenStreams, minDocCount)[a]
      && Groups(topTerms, tokenStreams, minDocCount)[b'] == Ranked(topTerms, tokenStreams, minDocCount)[b])
  {
    SortDescKeepsTieOrder(Groups(topTerms, tokenStreams, minDocCount), SequenceScore, a, b);
  }

  /** With distinct terms, an unused term's one-word group occurs once among the singles. */
  lemma {:induction false} SingleOccursOnce(topTerms: seq<TermScore>, used: set<string>, i: nat)
    requires forall i, j :: 0 <= i < j < |topTerms| ==> topTerms[i].term != topTerms[j].term
    requires i < |topTerms| && topTerms[i].term !in used
    ensures multiset(Singles(topTerms, used))[Single(topTerms[i])] == 1
  {
    var rest := Singles(topTerms[1..], used);
    var head: seq<WordSequence> := if topTerms[0].term in used then [] else [Single(topTerms[0])];
    assert Singles(topTerms, used) == head + rest;
    if i == 0 {
      assert forall j :: 0 <= j < |topTerms[1..]| ==> topTerms[1..][j].term != topTerms[0].term;
      assert Single(topTerms[0]) !in rest;
    } else {
      SingleOccursOnce(topTerms[1..], used, i - 1);
      assert topTerms[1..][i - 1] == topTerms[i];
      assert topTerms[0].term != topTerms[i].term;
    }
  }

  /** Two different positions holding the same value make it occur at least twice. */
  lemma RepeatedValue<T>(s: seq<T>, k1: nat, k2: nat)
    requires k1 < |s| && k2 < |s|
    ensures k1 != k2 && s[k1] == s[k2] ==> multiset(s)[s[k1]] >= 2
  {
    if k1 != k2 && s[k1] == s[k2] {
      var lo, hi := if k1 < k2 then k1 else k2, if k1 < k2 then k2 else k1;
      assert s == s[..hi] + s[hi..];
      assert s[lo] in s[..hi];
      assert s[hi] in s[hi..];
    }
  }

  /** The grouped value with one-word terms `[w]` is the single of the entry carrying `w`. */
  lemma OneWordGroupIsSingle(topTerms: seq<TermScore>, tokenStreams: seq<seq<string>>, minDocCount: int, i: nat, x: WordSequence)
    requires forall i, j :: 0 <= i < j < |topTerms| ==> topTerms[i].term != topTerms[j].term
    requires i < |topTerms|
    requires x in Groups(topTerms, tokenStreams, minDocCount) && x.terms == [topTerms[i].term]
    ensures x == Single(topTerms[i])
  {
    var accepted := Accepted(topTerms, tokenStreams, minDocCount);
    assert forall y :: y in Phrases(topTerms, accepted) ==> |y.terms| == 2;
    assert x in Singles(topTerms, TermsOf(accepted));
    var j :| 0 <= j < |topTerms| && topTerms[j].term !in TermsOf(accepted) && x == Single(topTerms[j]);
    assert topTerms[j].term == topTerms[i].term;
  }

  /**
   * With distinct top terms, a term that no phrase uses appears exactly once
   * in the result, as a one-word group.
   */
  lemma UnusedTermAppearsOnce(topTerms: seq<TermScore>, tokenStreams: seq<seq<string>>, minDocCount: int,
                              i: nat, k1: nat, k2: nat)
    requires forall i, j :: 0 <= i < j < |topTerms| ==> topTerms[i].term != topTerms[j].term
    requires i < |topTerms| && topTerms[i].term !in TermsOf(Accepted(topTerms, tokenStreams, minDocCount))
    requires k1 < |DetectAndSortSequences(topTerms, tokenStreams, minDocCount)|
    requires k2 < |DetectAndSortSequences(topTerms, tokenStreams, minDocCount)|
    requires DetectAndSortSequences(topTerms, tokenStreams, minDocCount)[k1] == [topTerms[i].term]
    requires DetectAndSortSequences(topTerms, tokenStreams, minDocCount)[k2] == [topTerms[i].term]
    ensures k1 == k2
  {
    if |topTerms| >= 2 {
      var groups := Groups(topTerms, tokenStreams, minDocCount);
      var ranked := Ranked(topTerms, tokenStreams, minDocCount);
      var accepted := Accepted(topTerms, tokenStreams, minDocCount);
      var x := Single(topTerms[i]);
      SortDescMember(groups, SequenceScore, ranked[k1]);
      SortDescMember(groups, SequenceScore, ranked[k2]);
      OneWordGroupIsSingle(topTerms, tokenStreams, minDocCount, i, ranked[k1]);
      OneWordGroupIsSingle(topTerms, tokenStreams, minDocCount, i, ranked[k2]);
      RepeatedValue(ranked, k1, k2);
      SingleOccursOnce(topTerms, TermsOf(accepted), i);
      assert x !in Phrases(topTerms, accepted);
      assert groups == Phrases(topTerms, accepted) + Singles(topTerms, TermsOf(accepted));
      assert multiset(ranked)[x] == 1;
    }
  }

  /** A phrase is fixed by its pair: equal term lists mean equal phrases. */
  lemma PhraseOfPair(topTerms: seq<TermScore>, e1: (Pair, nat), e2: (Pair, nat))
    ensures Phrase(topTerms, e1).terms == Phrase(topTerms, e2).terms ==> e1.0 == e2.0
    ensures e1.0 == e2.0 ==> Phrase(topTerms, e1) == Phrase(topTerms, e2)
  {
    if Phrase(topTerms, e1).terms == Phrase(topTerms, e2).terms {
      assert Phrase(topTerms, e1).terms[0] == e1.0.0 && Phrase(topTerms, e1).terms[1] == e1.0.1;
      assert Phrase(topTerms, e2).terms[0] == e2.0.0 && Phrase(topTerms, e2).terms[1] == e2.0.1;
    }
  }

  /** Term-disjoint accepted pairs give each phrase exactly once. */
  lemma {:induction false} PhraseCountIsOne(topTerms: seq<TermScore>, accepted: seq<(Pair, nat)>, e: (Pair, nat))
    requires forall i, j :: 0 <= i < j < |accepted| ==> !Overlaps(accepted[i].0, accepted[j].0)
    requires e in accepted
    ensures multiset(Phrases(topTerms, accepted))[Phrase(topTerms, e)] == 1
  {
    var pre := accepted[..|accepted| - 1];
    var last := accepted[|accepted| - 1];
    assert Phrases(topTerms, accepted) == Phrases(topTerms, pre) + [Phrase(topTerms, last)];
    assert forall j :: 0 <= j < |pre| ==> !Overlaps(pre[j].0, last.0);
    if e == last {
      forall j | 0 <= j < |pre| ensures Phrases(topTerms, pre)[j] != Phrase(topTerms, last) {
        PhraseOfPair(topTerms, pre[j], last);
      }
      assert Phrase(topTerms, last) !in Phrases(topTerms, pre);
    } else {
      assert e in pre;
      PhraseCountIsOne(topTerms, pre, e);
      var j :| 0 <= j < |pre| && pre[j] == e;
      PhraseOfPair(topTerms, e, last);
      assert Phrase(topTerms, e) != Phrase(topTerms, last);
    }
  }

  /** The acceptance index a phrase was built from. */
  lemma PhraseIndex(topTerms: seq<TermScore>, accepted: seq<(Pair, nat)>, x: WordSequence) returns (a: nat)
    requires x in Phrases(topTerms, accepted)
    ensures a < |accepted| && x == Phrase(topTerms, accepted[a])
  {
    var phrases := Phrases(topTerms, accepted);
    var k :| 0 <= k < |phrases| && phrases[k] == x;
    a := k;
  }

  /** A two-word group of the result sits at one index only: no phrase is repeated. */
  lemma PhraseAppearsOnce(topTerms: seq<TermScore>, tokenStreams: seq<seq<string>>, minDocCount: int, k1: nat, k2: nat)
    requires k1 < |DetectAndSortSequences(topTerms, tokenStreams, minDocCount)|
    requires k2 < |DetectAndSortSequences(topTerms, tokenStreams, minDocCount)|
    requires |DetectAndSortSequences(topTerms, tokenStreams, minDocCount)[k1]| == 2
    requires DetectAndSortSequences(topTerms, tokenStreams, minDocCount)[k1]
          == DetectAndSortSequences(topTerms, tokenStreams, minDocCount)[k2]
    ensures k1 == k2
  {
    if |topTerms| >= 2 {
      var groups := Groups(topTerms, tokenStreams, minDocCount);
      var ranked := Ranked(topTerms, tokenStreams, minDocCount);
      var accepted := Accepted(topTerms, tokenStreams, minDocCount);
      var phrases := Phrases(topTerms, accepted);
      var singles := Singles(topTerms, TermsOf(accepted));
      var r := DetectAndSortSequences(topTerms, tokenStreams, minDocCount);
      assert r[k1] == ranked[k1].terms && r[k2] == ranked[k2].terms by {
        assert r == TermLists(ranked);
      }
      assert groups == phrases + singles;
      assert ranked[k1] !in singles && ranked[k2] !in singles;
      assert ranked[k1] in phrases by {
        SortDescMember(groups, SequenceScore, ranked[k1]);
      }
      assert ranked[k2] in phrases by {
        SortDescMember(groups, SequenceScore, ranked[k2]);
      }
      var a := PhraseIndex(topTerms, accepted, ranked[k1]);
      var b := PhraseIndex(topTerms, accepted, ranked[k2]);
      PhraseOfPair(topTerms, accepted[a], accepted[b]);
      assert ranked[k1] == ranked[k2];
      RepeatedValue(ranked, k1, k2);
      PhraseCountIsOne(topTerms, accepted, accepted[a]);
      assert multiset(singles)[ranked[k1]] == 0;
      assert multiset(groups)[ranked[k1]] == 1;
    }
  }
}
