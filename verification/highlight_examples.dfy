/** The navigation and escaping scenarios of `highlight.ts`, over concrete inputs. */
module HighlightExamples {
  import opened Wrappers
  import opened Types
  import opened Highlight

  const Positions: seq<int> := [2, 0, 3, 1]

  /** Documents 0, 1 and 3 hold the phrase, document 2 does not. */
  predicate ExampleStreams(streams: seq<seq<string>>, phrase: seq<string>) {
    |streams| == 4
    && ContainsPhrase(streams[0], phrase) && ContainsPhrase(streams[1], phrase)
    && !ContainsPhrase(streams[2], phrase) && ContainsPhrase(streams[3], phrase)
  }

  /** From position 0 (document 2) the next hit is position 1 (document 0). */
  lemma NextFromFirst(streams: seq<seq<string>>, term: string, tokenizer: Tokenizer)
    requires RemoveEmpty(tokenizer(term)) != [] && ExampleStreams(streams, RemoveEmpty(tokenizer(term)))
    ensures NextIndexWithPhrase(Positions, 0, streams, term, tokenizer) == Some(1)
  {
  }

  /** From position 1 (document 0) the next hit is position 2 (document 3). */
  lemma NextFromSecond(streams: seq<seq<string>>, term: string, tokenizer: Tokenizer)
    requires RemoveEmpty(tokenizer(term)) != [] && ExampleStreams(streams, RemoveEmpty(tokenizer(term)))
    ensures NextIndexWithPhrase(Positions, 1, streams, term, tokenizer) == Some(2)
  {
  }

  /** From position 2 (document 3) the next hit is position 3 (document 1). */
  lemma NextFromThird(streams: seq<seq<string>>, term: string, tokenizer: Tokenizer)
    requires RemoveEmpty(tokenizer(term)) != [] && ExampleStreams(streams, RemoveEmpty(tokenizer(term)))
    ensures NextIndexWithPhrase(Positions, 2, streams, term, tokenizer) == Some(3)
  {
  }

  /** From the last position the search wraps past position 0 (document 2) to position 1. */
  lemma NextWrapsAround(streams: seq<seq<string>>, term: string, tokenizer: Tokenizer)
    requires RemoveEmpty(tokenizer(term)) != [] && ExampleStreams(streams, RemoveEmpty(tokenizer(term)))
    ensures NextIndexWithPhrase(Positions, 3, streams, term, tokenizer) == Some(1)
  {
  }

  /** A current position beyond the list is taken modulo its length: 6 acts as 2. */
  lemma NextFromOutOfRange(streams: seq<seq<string>>, term: string, tokenizer: Tokenizer)
    requires RemoveEmpty(tokenizer(term)) != [] && ExampleStreams(streams, RemoveEmpty(tokenizer(term)))
    ensures NextIndexWithPhrase(Positions, 6, streams, term, tokenizer) == Some(3)
    ensures NextIndexWithPhrase(Positions, -2, streams, term, tokenizer) == Some(3)
  {
  }

  /** A phrase found nowhere gives no position, from any starting point. */
  lemma NothingMatches(streams: seq<seq<string>>, currentPos: int, term: string, tokenizer: Tokenizer)
    requires forall d :: 0 <= d < |streams| ==> !ContainsPhrase(streams[d], RemoveEmpty(tokenizer(term)))
    ensures NextIndexWithPhrase(Positions, currentPos, streams, term, tokenizer) == None
    ensures PrevIndexWithPhrase(Positions, currentPos, streams, term, tokenizer) == None
  {
  }

  /** A term that tokenizes to nothing but empty tokens (punctuation only) leaves the text escaped and unmarked. */
  lemma EmptyTermEscapesText(text: string, term: string, tokenizer: Tokenizer)
    requires RemoveEmpty(tokenizer(term)) == []
    ensures HighlightPhraseHTML(text, term, tokenizer) == Some(EscapeHTML(text))
  {
  }

  /** From position 1 (document 0) the previous hit wraps past position 0 to position 3. */
  lemma PrevWrapsAround(streams: seq<seq<string>>, term: string, tokenizer: Tokenizer)
    requires RemoveEmpty(tokenizer(term)) != [] && ExampleStreams(streams, RemoveEmpty(tokenizer(term)))
    ensures PrevIndexWithPhrase(Positions, 1, streams, term, tokenizer) == Some(3)
  {
  }

  /** Tokens must be adjacent and in order: in `w x y z` the phrase `w x` is found, `w y` and `x w` are not. */
  lemma AdjacencyMatters(w: string, x: string, y: string, z: string)
    requires w != x && w != y && w != z && x != y && x != z && y != z
    ensures ContainsPhrase([w, x, y, z], [w, x])
    ensures ContainsPhrase([w, x, y, z], [x, y])
    ensures !ContainsPhrase([w, x, y, z], [w, y])
    ensures !ContainsPhrase([w, x, y, z], [x, w])
  {
    var s := [w, x, y, z];
    SliceIsContained(s, 0, 2);
    SliceIsContained(s, 1, 3);
    assert s[0..2] == [w, x] && s[1..3] == [x, y];
    assert s[2..4] == [y, z];
    assert !SearchFrom(s, [w, y], 3) && !SearchFrom(s, [x, w], 3);
    assert !SearchFrom(s, [w, y], 2) && !SearchFrom(s, [x, w], 2);
    assert !SearchFrom(s, [w, y], 1) && !SearchFrom(s, [x, w], 1);
    assert !SearchFrom(s, [w, y], 0) && !SearchFrom(s, [x, w], 0);
  }
}
