/**
 * Significant-term selection: `computeSignificantTermsFromCounts` and its
 * wrapper `computeSignificantTerms`.
 *
 * Given foreground counts, background counts and a heuristic, the selector
 * raises a consistency error in subset mode when a foreground count exceeds
 * its background count, drops terms below `minDocCount`, keeps only positive
 * scores, sorts by score (stable, non-increasing) and keeps the first `topN`.
 */
module SignificantTerms {
  import opened Wrappers
  import opened Types
  import opened DocFrequencies
  import opened StableSort

  /** A term -> document-frequency table (`WordUsageCounts`), in iteration order. */
  type WordUsageCounts = Counts<string>

  /**
   * The only error the core raises: in subset mode, a foreground count above
   * its background count. Like the thrown message, it names the term and the
   * background count.
   */
  datatype SelectionError = ForegroundExceedsBackground(term: string, bgCount: nat)

  /** The fixed arguments of one selector call. */
  datatype Selection = Selection(
    totalForegroundDocs: nat,
    bgCounts: WordUsageCounts,
    totalBackgroundDocs: nat,
    scoringFunction: SignificanceHeuristic,
    isSubset: bool,
    minDocCount: int)
  {
    /** The background size handed to the heuristic: foreground docs are added unless the foreground is a subset. */
    function AdjustedTotalBackground(): nat {
      if isSubset then totalBackgroundDocs else totalBackgroundDocs + totalForegroundDocs
    }

    /** The background count handed to the heuristic for a term with foreground count `fgCount`. */
    function BackgroundCount(term: string, fgCount: nat): nat {
      var bg := Get(bgCounts, term);
      if isSubset then bg else bg + fgCount
    }

    /** In subset mode, the entry's foreground count exceeds its (missing = 0) background count. */
    predicate Violates(entry: (string, nat)) {
      isSubset && entry.1 > Get(bgCounts, entry.0)
    }

    function ErrorFor(entry: (string, nat)): SelectionError {
      ForegroundExceedsBackground(entry.0, Get(bgCounts, entry.0))
    }

    /** The record built for an entry: its score and the counts it was scored from. */
    function Scored(entry: (string, nat)): TermScore {
      var bg := BackgroundCount(entry.0, entry.1);
      TermScore(entry.0,
                scoringFunction.score(entry.1, totalForegroundDocs, bg, AdjustedTotalBackground()),
                entry.1, bg)
    }

    /** The entry passes the document-count threshold and scores above zero. */
    predicate Qualifies(entry: (string, nat)) {
      entry.1 >= minDocCount && Scored(entry).score > 0.0
    }
  }

  function ScoreKey(t: TermScore): real { t.score }

  /**
   * Reference definition of the scored list without the error check: the
   * qualifying entries, scored, in iteration order.
   */
  function Qualified(entries: WordUsageCounts, sel: Selection): (r: seq<TermScore>)
    ensures forall t :: t in r <==> exists i :: 0 <= i < |entries| && sel.Qualifies(entries[i]) && t == sel.Scored(entries[i])
    ensures |r| <= |entries|
  {
    if entries == [] then []
    else
      var rest := Qualified(entries[1..], sel);
      var e := entries[0];
      assert forall i :: 0 <= i < |entries[1..]| ==> entries[1..][i] == entries[i + 1];
      assert forall i :: 1 <= i < |entries| ==> entries[i] == entries[1..][i - 1];
      if sel.Qualifies(e) then [sel.Scored(e)] + rest else rest
  }

  lemma QualifiedMember(entries: WordUsageCounts, sel: Selection, k: nat)
    requires k < |Qualified(entries, sel)|
    ensures exists i :: 0 <= i < |entries| && Qualified(entries, sel)[k] == sel.Scored(entries[i])
  {
    assert Qualified(entries, sel)[k] in Qualified(entries, sel);
  }

  /** Nothing qualifies when every entry is below the document-count threshold. */
  lemma {:induction false} QualifiedNone(entries: WordUsageCounts, sel: Selection)
    requires forall i :: 0 <= i < |entries| ==> entries[i].1 < sel.minDocCount
    ensures Qualified(entries, sel) == []
  {
    if entries != [] {
      assert forall i :: 0 <= i < |entries[1..]| ==> entries[1..][i] == entries[i + 1];
      QualifiedNone(entries[1..], sel);
    }
  }

  lemma {:induction false} QualifiedPairOrder(entries: WordUsageCounts, sel: Selection, a: nat, b: nat)
    requires a < b < |Qualified(entries, sel)|
    ensures exists i, j :: (0 <= i < j < |entries|
      && Qualified(entries, sel)[a] == sel.Scored(entries[i])
      && Qualified(entries, sel)[b] == sel.Scored(entries[j]))
  {
    var r := Qualified(entries, sel);
    var tail := entries[1..];
    var rest := Qualified(tail, sel);
    if sel.Qualifies(entries[0]) {
      assert r == [sel.Scored(entries[0])] + rest;
      if a == 0 {
        QualifiedMember(tail, sel, b - 1);
        var j :| 0 <= j < |tail| && rest[b - 1] == sel.Scored(tail[j]);
        assert r[0] == sel.Scored(entries[0]) && r[b] == sel.Scored(entries[j + 1]);
      } else {
        QualifiedPairOrder(tail, sel, a - 1, b - 1);
        var i, j :| 0 <= i < j < |tail| && rest[a - 1] == sel.Scored(tail[i]) && rest[b - 1] == sel.Scored(tail[j]);
        assert r[a] == sel.Scored(entries[i + 1]) && r[b] == sel.Scored(entries[j + 1]);
      }
    } else {
      assert r == rest;
      QualifiedPairOrder(tail, sel, a, b);
      var i, j :| 0 <= i < j < |tail| && rest[a] == sel.Scored(tail[i]) && rest[b] == sel.Scored(tail[j]);
      assert r[a] == sel.Scored(entries[i + 1]) && r[b] == sel.Scored(entries[j + 1]);
    }
  }

  /** The first violating entry of the tail, shifted by one, is the first of the whole list when the head does not violate. */
  lemma FirstViolationOfTail(entries: WordUsageCounts, sel: Selection, i: nat)
    requires entries != [] && !sel.Violates(entries[0])
    requires i < |entries| - 1 && sel.Violates(entries[1..][i])
    requires forall j :: 0 <= j < i ==> !sel.Violates(entries[1..][j])
    ensures sel.Violates(entries[i + 1]) && entries[i + 1] == entries[1..][i]
    ensures forall j :: 0 <= j < i + 1 ==> !sel.Violates(entries[j])
  {
    assert forall j :: 1 <= j < i + 1 ==> entries[j] == entries[1..][j - 1];
  }

  /**
   * The loop of `computeSignificantTermsFromCounts`: for each entry in
   * iteration order, throw on a subset violation, skip it below the
   * threshold, score it and keep it when the score is positive.
   */
  function ScoreTerms(entries: WordUsageCounts, sel: Selection): (r: Result<seq<TermScore>, SelectionError>)
    ensures r.Failure? <==> exists i :: 0 <= i < |entries| && sel.Violates(entries[i])
    ensures r.Failure? ==> exists i :: 0 <= i < |entries| && sel.Violates(entries[i])
                                    && (forall j :: 0 <= j < i ==> !sel.Violates(entries[j]))
                                    && r.error == sel.ErrorFor(entries[i])
    ensures r.Success? ==> r.value == Qualified(entries, sel)
  {
    if entries == [] then Success([])
    else
      var e := entries[0];
      assert forall i :: 0 <= i < |entries[1..]| ==> entries[1..][i] == entries[i + 1];
      if sel.Violates(e) then Failure(ForegroundExceedsBackground(e.0, Get(sel.bgCounts, e.0)))
      else
        match ScoreTerms(entries[1..], sel)
        case Failure(err) =>
          assert exists i :: 1 <= i < |entries| && sel.Violates(entries[i])
                          && (forall j :: 0 <= j < i ==> !sel.Violates(entries[j]))
                          && err == sel.ErrorFor(entries[i]) by {
            var i :| 0 <= i < |entries[1..]| && sel.Violates(entries[1..][i])
                     && (forall j :: 0 <= j < i ==> !sel.Violates(entries[1..][j]))
                     && err == sel.ErrorFor(entries[1..][i]);
            FirstViolationOfTail(entries, sel, i);
          }
          Failure(err)
        case Success(rest) =>
          if e.1 < sel.minDocCount then Success(rest)
          else
            var t := sel.Scored(e);
            if t.score > 0.0 then Success([t] + rest) else Success(rest)
  }

  function Min(a: int, b: int): int { if a <= b then a else b }

  /** `s.slice(0, end)` for an integer `end`; a negative `end` counts back from the end. */
  function SliceTo<T>(s: seq<T>, end: int): (r: seq<T>)
    ensures end >= 0 ==> |r| == Min(end, |s|)
    ensures end < 0 ==> |r| == (if |s| + end >= 0 then |s| + end else 0)
    ensures r == s[..|r|]
  {
    if end >= 0 then s[..Min(end, |s|)]
    else if |s| + end >= 0 then s[..|s| + end]
    else []
  }

  /** The full ranking before truncation: qualifying entries, stably sorted by non-increasing score. */
  function Ranking(entries: WordUsageCounts, sel: Selection): seq<TermScore> {
    SortDesc(Qualified(entries, sel), ScoreKey)
  }

  function SelectionOf(totalForegroundDocs: nat, bgCounts: WordUsageCounts, totalBackgroundDocs: nat,
                       scoringFunction: SignificanceHeuristic, isSubset: bool, minDocCount: int): Selection {
    Selection(totalForegroundDocs, bgCounts, totalBackgroundDocs, scoringFunction, isSubset, minDocCount)
  }

  lemma ScoredFacts(entries: WordUsageCounts, sel: Selection, t: TermScore)
    requires t in Qualified(entries, sel)
    ensures t.score > 0.0
    ensures t.fgCount >= sel.minDocCount
    ensures exists i :: 0 <= i < |entries| && entries[i] == (t.term, t.fgCount)
    ensures t.bgCount == Get(sel.bgCounts, t.term) + (if sel.isSubset then 0 else t.fgCount)
    ensures t.score == sel.scoringFunction.score(t.fgCount, sel.totalForegroundDocs, t.bgCount, sel.AdjustedTotalBackground())
  {
    var i :| 0 <= i < |entries| && sel.Qualifies(entries[i]) && t == sel.Scored(entries[i]);
    assert entries[i] == (t.term, t.fgCount);
  }

  /** `computeSignificantTermsFromCounts`. */
  function ComputeSignificantTermsFromCounts(
    fgCounts: WordUsageCounts,
    totalForegroundDocs: nat,
    bgCounts: WordUsageCounts,
    totalBackgroundDocs: nat,
    topN: int,
    scoringFunction: SignificanceHeuristic,
    isSubset: bool,
    minDocCount: int
  ): (r: Result<seq<TermScore>, SelectionError>)
    ensures totalForegroundDocs < minDocCount ==> r == Success([])
    ensures r.Failure? <==>
      totalForegroundDocs >= minDocCount && isSubset
      && exists i :: 0 <= i < |fgCounts| && fgCounts[i].1 > Get(bgCounts, fgCounts[i].0)
    ensures r.Success? ==> SortedDesc(r.value, ScoreKey)
    ensures r.Success? && topN >= 0 ==> |r.value| <= topN
  {
    if totalForegroundDocs < minDocCount then Success([])
    else
      var sel := SelectionOf(totalForegroundDocs, bgCounts, totalBackgroundDocs, scoringFunction, isSubset, minDocCount);
      assert forall i :: 0 <= i < |fgCounts| ==>
        (sel.Violates(fgCounts[i]) <==> isSubset && fgCounts[i].1 > Get(bgCounts, fgCounts[i].0));
      match ScoreTerms(fgCounts, sel)
      case Failure(e) => Failure(e)
      case Success(scored) => Success(SliceTo(SortDesc(scored, ScoreKey), topN))
  }

  /** Above the threshold, a successful result is the first `topN` of the full ranking. */
  lemma FromCountsIsRankingPrefix(
    fgCounts: WordUsageCounts, totalForegroundDocs: nat, bgCounts: WordUsageCounts, totalBackgroundDocs: nat,
    topN: int, scoringFunction: SignificanceHeuristic, isSubset: bool, minDocCount: int)
    requires totalForegroundDocs >= minDocCount
    requires ComputeSignificantTermsFromCounts(fgCounts, totalForegroundDocs, bgCounts, totalBackgroundDocs,
                                               topN, scoringFunction, isSubset, minDocCount).Success?
    ensures ComputeSignificantTermsFromCounts(fgCounts, totalForegroundDocs, bgCounts, totalBackgroundDocs,
                                              topN, scoringFunction, isSubset, minDocCount).value
         == SliceTo(Ranking(fgCounts, SelectionOf(totalForegroundDocs, bgCounts, totalBackgroundDocs,
                                                  scoringFunction, isSubset, minDocCount)), topN)
  {
  }

  /** The thrown error names the first entry, in iteration order, whose foreground count exceeds its background count. */
  lemma FromCountsReportsFirstViolation(
    fgCounts: WordUsageCounts, totalForegroundDocs: nat, bgCounts: WordUsageCounts, totalBackgroundDocs: nat,
    topN: int, scoringFunction: SignificanceHeuristic, isSubset: bool, minDocCount: int)
    requires ComputeSignificantTermsFromCounts(fgCounts, totalForegroundDocs, bgCounts, totalBackgroundDocs,
                                               topN, scoringFunction, isSubset, minDocCount).Failure?
    ensures exists i :: (0 <= i < |fgCounts| && fgCounts[i].1 > Get(bgCounts, fgCounts[i].0)
      && (forall j :: 0 <= j < i ==> fgCounts[j].1 <= Get(bgCounts, fgCounts[j].0))
      && ComputeSignificantTermsFromCounts(fgCounts, totalForegroundDocs, bgCounts, totalBackgroundDocs,
                                           topN, scoringFunction, isSubset, minDocCount).error
         == ForegroundExceedsBackground(fgCounts[i].0, Get(bgCounts, fgCounts[i].0)))
  {
    var sel := SelectionOf(totalForegroundDocs, bgCounts, totalBackgroundDocs, scoringFunction, isSubset, minDocCount);
    var i :| 0 <= i < |fgCounts| && sel.Violates(fgCounts[i])
             && (forall j :: 0 <= j < i ==> !sel.Violates(fgCounts[j]))
             && ScoreTerms(fgCounts, sel).error == sel.ErrorFor(fgCounts[i]);
    assert forall j :: 0 <= j < i ==> fgCounts[j].1 <= Get(bgCounts, fgCounts[j].0);
  }

  /** `computeSignificantTermsFromCounts` with the fixed arguments bundled as `sel`. */
  function Select(fgCounts: WordUsageCounts, sel: Selection, topN: int): Result<seq<TermScore>, SelectionError> {
    ComputeSignificantTermsFromCounts(fgCounts, sel.totalForegroundDocs, sel.bgCounts, sel.totalBackgroundDocs,
                                      topN, sel.scoringFunction, sel.isSubset, sel.minDocCount)
  }

  lemma SelectIsRankingPrefix(fgCounts: WordUsageCounts, sel: Selection, topN: int)
    requires sel.totalForegroundDocs >= sel.minDocCount
    requires Select(fgCounts, sel, topN).Success?
    ensures Select(fgCounts, sel, topN).value == SliceTo(Ranking(fgCounts, sel), topN)
  {
    assert sel == SelectionOf(sel.totalForegroundDocs, sel.bgCounts, sel.totalBackgroundDocs,
                              sel.scoringFunction, sel.isSubset, sel.minDocCount);
  }

  /**
   * Every returned record comes from an fgCounts entry that passed the
   * threshold and scored positive, carries that entry's count, and holds
   * exactly the background count and score the heuristic was called with.
   */
  lemma SelectedRecordsAreScoredEntries(fgCounts: WordUsageCounts, sel: Selection, topN: int, t: TermScore)
    requires Select(fgCounts, sel, topN).Success?
    requires t in Select(fgCounts, sel, topN).value
    ensures t.score > 0.0
    ensures t.fgCount >= sel.minDocCount
    ensures exists i :: 0 <= i < |fgCounts| && fgCounts[i] == (t.term, t.fgCount)
    ensures DistinctKeys(fgCounts) ==> t.fgCount == Get(fgCounts, t.term)
    ensures t.bgCount == Get(sel.bgCounts, t.term) + (if sel.isSubset then 0 else t.fgCount)
    ensures t.score == sel.scoringFunction.score(t.fgCount, sel.totalForegroundDocs, t.bgCount,
                                                 sel.AdjustedTotalBackground())
  {
    if sel.totalForegroundDocs >= sel.minDocCount {
      SelectIsRankingPrefix(fgCounts, sel, topN);
      SortDescMember(Qualified(fgCounts, sel), ScoreKey, t);
      ScoredFacts(fgCounts, sel, t);
      var i :| 0 <= i < |fgCounts| && fgCounts[i] == (t.term, t.fgCount);
      if DistinctKeys(fgCounts) {
        GetFindsEntry(fgCounts, i);
      }
    }
  }

  /** A qualifying entry left out of the result scores no higher than anything returned. */
  lemma OmittedEntriesDoNotOutscore(fgCounts: WordUsageCounts, sel: Selection, topN: int, i: nat, t: TermScore)
    requires Select(fgCounts, sel, topN).Success?
    requires i < |fgCounts| && sel.Qualifies(fgCounts[i])
    requires sel.Scored(fgCounts[i]) !in Select(fgCounts, sel, topN).value
    requires t in Select(fgCounts, sel, topN).value
    ensures t.score >= sel.Scored(fgCounts[i]).score
  {
    if sel.totalForegroundDocs >= sel.minDocCount {
      SelectIsRankingPrefix(fgCounts, sel, topN);
      var ranked := Ranking(fgCounts, sel);
      var top := Select(fgCounts, sel, topN).value;
      var x := sel.Scored(fgCounts[i]);
      SortDescMember(Qualified(fgCounts, sel), ScoreKey, x);
      var q :| 0 <= q < |ranked| && ranked[q] == x;
      var p :| 0 <= p < |top| && top[p] == t;
      assert top == ranked[..|top|];
      assert ranked[p] == t;
      assert ScoreKey(ranked[p]) >= ScoreKey(ranked[q]);
    }
  }

  /** Truncation only drops entries when the result is full: below `topN` entries, every qualifying entry is present. */
  lemma ShortResultIsComplete(fgCounts: WordUsageCounts, sel: Selection, topN: int, i: nat)
    requires sel.totalForegroundDocs >= sel.minDocCount
    requires Select(fgCounts, sel, topN).Success?
    requires 0 <= |Select(fgCounts, sel, topN).value| < topN
    requires i < |fgCounts| && sel.Qualifies(fgCounts[i])
    ensures sel.Scored(fgCounts[i]) in Select(fgCounts, sel, topN).value
  {
    SelectIsRankingPrefix(fgCounts, sel, topN);
    SortDescMember(Qualified(fgCounts, sel), ScoreKey, sel.Scored(fgCounts[i]));
    assert Select(fgCounts, sel, topN).value == Ranking(fgCounts, sel);
  }

  /** A smaller `topN` yields a prefix of the result for a larger one. */
  lemma TruncationIsPrefix(fgCounts: WordUsageCounts, sel: Selection, n1: int, n2: int)
    requires 0 <= n1 <= n2
    requires Select(fgCounts, sel, n2).Success?
    ensures Select(fgCounts, sel, n1).Success?
    ensures Select(fgCounts, sel, n1).value
         == Select(fgCounts, sel, n2).value[..Min(n1, |Select(fgCounts, sel, n2).value|)]
  {
    if sel.totalForegroundDocs >= sel.minDocCount {
      SelectIsRankingPrefix(fgCounts, sel, n1);
      SelectIsRankingPrefix(fgCounts, sel, n2);
    }
  }

  /** Records with equal scores appear in the iteration order of their fgCounts entries (the sort is stable). */
  lemma TiesKeepEntryOrder(fgCounts: WordUsageCounts, sel: Selection, topN: int, a: nat, b: nat)
    requires Select(fgCounts, sel, topN).Success?
    requires a < b < |Select(fgCounts, sel, topN).value|
    requires Select(fgCounts, sel, topN).value[a].score == Select(fgCounts, sel, topN).value[b].score
    ensures exists i, j :: (0 <= i < j < |fgCounts|
      && Select(fgCounts, sel, topN).value[a] == sel.Scored(fgCounts[i])
      && Select(fgCounts, sel, topN).value[b] == sel.Scored(fgCounts[j]))
  {
    if sel.totalForegroundDocs >= sel.minDocCount {
      SelectIsRankingPrefix(fgCounts, sel, topN);
      var q := Qualified(fgCounts, sel);
      var ranked := SortDesc(q, ScoreKey);
      var top := Select(fgCounts, sel, topN).value;
      assert top == ranked[..|top|];
      assert top[a] == ranked[a] && top[b] == ranked[b];
      SortDescKeepsTieOrder(q, ScoreKey, a, b);
      var a', b' :| 0 <= a' < b' < |q| && q[a'] == ranked[a] && q[b'] == ranked[b];
      QualifiedPairOrder(fgCounts, sel, a', b');
    }
  }

  /** `computeSignificantTerms`: count document frequencies, then select with the document count as foreground size. */
  function ComputeSignificantTerms(
    docs: seq<seq<string>>,
    bgCounts: WordUsageCounts,
    totalBackgroundDocs: nat,
    topN: int,
    scoringFunction: SignificanceHeuristic,
    isSubset: bool,
    minDocCount: int
  ): (r: Result<seq<TermScore>, SelectionError>)
    ensures |docs| < minDocCount ==> r == Success([])
    ensures !isSubset ==> r.Success?
    ensures r.Success? && topN >= 0 ==> |r.value| <= topN
    ensures r.Success? ==> SortedDesc(r.value, ScoreKey)
  {
    ComputeSignificantTermsFromCounts(CountDocFrequencies(docs), |docs|, bgCounts, totalBackgroundDocs,
                                      topN, scoringFunction, isSubset, minDocCount)
  }

  /** Every returned term occurs in `fgCount` documents, at least `minDocCount` of them, and scores positive. */
  lemma ComputedRecordsCountDocuments(
    docs: seq<seq<string>>, bgCounts: WordUsageCounts, totalBackgroundDocs: nat, topN: int,
    scoringFunction: SignificanceHeuristic, isSubset: bool, minDocCount: int, t: TermScore)
    requires ComputeSignificantTerms(docs, bgCounts, totalBackgroundDocs, topN, scoringFunction, isSubset, minDocCount).Success?
    requires t in ComputeSignificantTerms(docs, bgCounts, totalBackgroundDocs, topN, scoringFunction, isSubset, minDocCount).value
    ensures t.fgCount == DocCount(docs, t.term)
    ensures t.fgCount >= minDocCount && t.score > 0.0
    ensures exists i :: 0 <= i < |docs| && t.term in docs[i]
  {
    var sel := Selection(|docs|, bgCounts, totalBackgroundDocs, scoringFunction, isSubset, minDocCount);
    var fg := CountDocFrequencies(docs);
    assert Select(fg, sel, topN) == ComputeSignificantTerms(docs, bgCounts, totalBackgroundDocs, topN, scoringFunction, isSubset, minDocCount);
    SelectedRecordsAreScoredEntries(fg, sel, topN, t);
    var i :| 0 <= i < |fg| && fg[i] == (t.term, t.fgCount);
    HasKeyIndex(fg, t.term);
  }

  /** In subset mode the wrapper raises exactly when some term occurs in more documents than its background count. */
  lemma ComputeSignificantTermsErrorIff(
    docs: seq<seq<string>>, bgCounts: WordUsageCounts, totalBackgroundDocs: nat, topN: int,
    scoringFunction: SignificanceHeuristic, isSubset: bool, minDocCount: int)
    ensures ComputeSignificantTerms(docs, bgCounts, totalBackgroundDocs, topN, scoringFunction, isSubset, minDocCount).Failure?
        <==> |docs| >= minDocCount && isSubset
             && exists t :: HasKey(CountDocFrequencies(docs), t) && DocCount(docs, t) > Get(bgCounts, t)
  {
    var fg := CountDocFrequencies(docs);
    var r := ComputeSignificantTerms(docs, bgCounts, totalBackgroundDocs, topN, scoringFunction, isSubset, minDocCount);
    assert r == ComputeSignificantTermsFromCounts(fg, |docs|, bgCounts, totalBackgroundDocs,
                                                  topN, scoringFunction, isSubset, minDocCount);
    if r.Failure? {
      var i :| 0 <= i < |fg| && fg[i].1 > Get(bgCounts, fg[i].0);
      GetFindsEntry(fg, i);
      HasKeyIndex(fg, fg[i].0);
      assert HasKey(fg, fg[i].0) && DocCount(docs, fg[i].0) > Get(bgCounts, fg[i].0);
    }
    if |docs| >= minDocCount && isSubset && exists t :: HasKey(fg, t) && DocCount(docs, t) > Get(bgCounts, t) {
      var t :| HasKey(fg, t) && DocCount(docs, t) > Get(bgCounts, t);
      HasKeyIndex(fg, t);
      var i :| 0 <= i < |fg| && fg[i].0 == t;
      GetFindsEntry(fg, i);
      assert fg[i].1 > Get(bgCounts, fg[i].0);
    }
  }
}
