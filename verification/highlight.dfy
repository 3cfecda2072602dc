/**
 * Phrase location and HTML escaping (`highlight.ts`).
 *
 * `containsPhrase` tests for a contiguous run of tokens; `nextIndexWithPhrase`
 * and `prevIndexWithPhrase` walk a cyclic list of document positions, one full
 * turn at most, to the nearest document containing a phrase; `escapeHTML`
 * rewrites the five HTML-special characters. The tokenizer is a parameter.
 */
module Highlight {
  import opened Wrappers
  import opened Types

  /** `tokens.filter(Boolean)`: the non-empty tokens, in order. */
  function RemoveEmpty(tokens: seq<string>): (r: seq<string>)
    ensures forall w :: w in r <==> w in tokens && w != ""
    ensures |r| <= |tokens|
    ensures "" !in tokens ==> r == tokens
  {
    if tokens == [] then []
    else (if tokens[0] == "" then [] else [tokens[0]]) + RemoveEmpty(tokens[1..])
  }

  /**
   * The filter works token by token, keeping order and repeats: it distributes
   * over concatenation. With the identity on lists without empty tokens, this
   * fixes the result of every input.
   */
  lemma {:induction false} RemoveEmptyConcat(a: seq<string>, b: seq<string>)
    ensures RemoveEmpty(a + b) == RemoveEmpty(a) + RemoveEmpty(b)
  {
    if a == [] {
      assert a + b == b;
    } else {
      assert (a + b)[1..] == a[1..] + b;
      RemoveEmptyConcat(a[1..], b);
    }
  }

  /** `phrase` occurs in `stream` starting at index `i`. */
  predicate MatchesAt(stream: seq<string>, phrase: seq<string>, i: int) {
    0 <= i && i + |phrase| <= |stream| && stream[i..i + |phrase|] == phrase
  }

  /** Reference definition: `phrase` is a contiguous run of `stream`. */
  ghost predicate Occurs(stream: seq<string>, phrase: seq<string>) {
    exists i :: MatchesAt(stream, phrase, i)
  }

  /** The outer loop of `containsPhrase` from start index `i`: is there a match at `i` or later? */
  function SearchFrom(stream: seq<string>, phrase: seq<string>, i: nat): (r: bool)
    ensures r <==> exists k :: i <= k && MatchesAt(stream, phrase, k)
    decreases |stream| - i
  {
    if i + |phrase| > |stream| then false
    else if MatchesAt(stream, phrase, i) then true
    else SearchFrom(stream, phrase, i + 1)
  }

  /** `containsPhrase`: never for the empty phrase; membership for one token; otherwise a scan. */
  function ContainsPhrase(stream: seq<string>, phrase: seq<string>): (r: bool)
    ensures r <==> phrase != [] && Occurs(stream, phrase)
  {
    if |phrase| == 0 then false
    else if |phrase| == 1 then
      assert phrase[0] in stream <==> Occurs(stream, phrase) by {
        if phrase[0] in stream {
          var i :| 0 <= i < |stream| && stream[i] == phrase[0];
          assert MatchesAt(stream, phrase, i);
        }
        if Occurs(stream, phrase) {
          var i :| MatchesAt(stream, phrase, i);
          assert stream[i] == stream[i..i + 1][0];
        }
      }
      phrase[0] in stream
    else SearchFrom(stream, phrase, 0)
  }

  /** A single token is contained exactly when it is a member of the stream. */
  lemma SingleTokenIsMembership(stream: seq<string>, t: string)
    ensures ContainsPhrase(stream, [t]) <==> t in stream
  {
    if t in stream {
      var i :| 0 <= i < |stream| && stream[i] == t;
      assert MatchesAt(stream, [t], i);
    }
  }

  /** Every non-empty contiguous slice of a stream is contained in it. */
  lemma SliceIsContained(stream: seq<string>, i: nat, j: nat)
    requires i < j <= |stream|
    ensures ContainsPhrase(stream, stream[i..j])
  {
    assert MatchesAt(stream, stream[i..j], i);
  }

  /** A phrase longer than the stream is never contained. */
  lemma LongerPhraseIsNeverContained(stream: seq<string>, phrase: seq<string>)
    requires |phrase| > |stream|
    ensures !ContainsPhrase(stream, phrase)
  {
  }

  /** Containment survives extending the stream on either side. */
  lemma ContainmentExtends(stream: seq<string>, phrase: seq<string>, before: seq<string>, after: seq<string>)
    requires ContainsPhrase(stream, phrase)
    ensures ContainsPhrase(before + stream + after, phrase)
  {
    var i :| MatchesAt(stream, phrase, i);
    var big := before + stream + after;
    assert big[|before| + i..|before| + i + |phrase|] == stream[i..i + |phrase|];
    assert MatchesAt(big, phrase, |before| + i);
  }

  /** A non-zero multiple of `n` is at least `n` away from zero. */
  lemma MultipleBound(d: int, n: int)
    requires n > 0
    ensures d >= 1 ==> d * n >= n
    ensures d <= -1 ==> d * n <= -n
  {
  }

  /** Euclidean remainder is determined by any quotient/remainder decomposition. */
  lemma ModUnique(a: int, n: int, q: int, m: int)
    requires n > 0 && 0 <= m < n && a == q * n + m
    ensures a % n == m
  {
    var q' := a / n;
    assert a == q' * n + a % n;
    assert (q - q') * n == a % n - m;
    MultipleBound(q - q', n);
  }

  /** JavaScript's `a % n` for `n > 0`: the remainder takes the sign of `a` (truncating division). */
  function JsRem(a: int, n: int): (r: int)
    requires n > 0
    ensures -n < r < n
    ensures a >= 0 ==> 0 <= r
    ensures a <= 0 ==> r <= 0
    ensures exists q :: a == q * n + r
  {
    if a >= 0 then
      assert a == (a / n) * n + a % n;
      a % n
    else
      assert -a == ((-a) / n) * n + (-a) % n;
      assert a == (-((-a) / n)) * n + -((-a) % n);
      -((-a) % n)
  }

  /** `((currentPos % n) + n) % n`: the current position brought into `[0, n)`. */
  function StartPosition(currentPos: int, n: int): (r: int)
    requires n > 0
    ensures 0 <= r < n
    ensures r == currentPos % n
  {
    var j := JsRem(currentPos, n);
    var q :| currentPos == q * n + j;
    var m := j + n;
    assert m >= 0;
    if j == 0 then
      ModUnique(currentPos, n, q, 0);
      ModUnique(m, n, 1, 0);
      m % n
    else if j > 0 then
      ModUnique(currentPos, n, q, j);
      ModUnique(m, n, 1, j);
      m % n
    else
      assert currentPos == (q - 1) * n + m;
      ModUnique(currentPos, n, q - 1, m);
      ModUnique(m, n, 0, m);
      m % n
  }

  /** `(start + step) % n`: `step` positions forward from `start`, wrapping. */
  function Forward(start: int, step: int, n: int): int
    requires n > 0 && 0 <= start < n && 1 <= step <= n
  {
    (start + step) % n
  }

  /** `(start - step + n) % n`: `step` positions backward from `start`, wrapping. */
  function Backward(start: int, step: int, n: int): int
    requires n > 0 && 0 <= start < n && 1 <= step <= n
  {
    (start - step + n) % n
  }

  /**
   * The loop body's test at position `pos`: `tokenStreams[docId]` is an
   * array (the document id is a valid index) and contains the phrase.
   */
  predicate Hit(positions: seq<int>, tokenStreams: seq<seq<string>>, phrase: seq<string>, pos: int)
    requires 0 <= pos < |positions|
  {
    0 <= positions[pos] < |tokenStreams| && ContainsPhrase(tokenStreams[positions[pos]], phrase)
  }

  /** The `for (step ...)` loop of `nextIndexWithPhrase`, from `step` on. */
  function ScanForward(positions: seq<int>, tokenStreams: seq<seq<string>>, phrase: seq<string>, start: int, step: int)
    : (r: Option<nat>)
    requires 0 <= start < |positions| && 1 <= step <= |positions| + 1
    ensures r.Some? ==> exists k :: step <= k <= |positions| && r.value == Forward(start, k, |positions|)
                                     && Hit(positions, tokenStreams, phrase, r.value)
                                     && forall j :: step <= j < k ==> !Hit(positions, tokenStreams, phrase, Forward(start, j, |positions|))
    ensures r.None? ==> forall k :: step <= k <= |positions| ==> !Hit(positions, tokenStreams, phrase, Forward(start, k, |positions|))
    decreases |positions| + 1 - step
  {
    var n := |positions|;
    if step > n then None
    else
      var pos := Forward(start, step, n);
      if Hit(positions, tokenStreams, phrase, pos) then Some(pos)
      else ScanForward(positions, tokenStreams, phrase, start, step + 1)
  }

  /** The `for (step ...)` loop of `prevIndexWithPhrase`, from `step` on. */
  function ScanBackward(positions: seq<int>, tokenStreams: seq<seq<string>>, phrase: seq<string>, start: int, step: int)
    : (r: Option<nat>)
    requires 0 <= start < |positions| && 1 <= step <= |positions| + 1
    ensures r.Some? ==> exists k :: step <= k <= |positions| && r.value == Backward(start, k, |positions|)
                                     && Hit(positions, tokenStreams, phrase, r.value)
                                     && forall j :: step <= j < k ==> !Hit(positions, tokenStreams, phrase, Backward(start, j, |positions|))
    ensures r.None? ==> forall k :: step <= k <= |positions| ==> !Hit(positions, tokenStreams, phrase, Backward(start, k, |positions|))
    decreases |positions| + 1 - step
  {
    var n := |positions|;
    if step > n then None
    else
      var pos := Backward(start, step, n);
      if Hit(positions, tokenStreams, phrase, pos) then Some(pos)
      else ScanBackward(positions, tokenStreams, phrase, start, step + 1)
  }

  /** Every position is some number of steps 1..n forward from `start`. */
  lemma ForwardReaches(start: int, p: int, n: int)
    requires n > 0 && 0 <= start < n && 0 <= p < n
    ensures var k := if p > start then p - start else p - start + n;
            1 <= k <= n && Forward(start, k, n) == p
  {
  }

  /** Every position is some number of steps 1..n backward from `start`. */
  lemma BackwardReaches(start: int, p: int, n: int)
    requires n > 0 && 0 <= start < n && 0 <= p < n
    ensures var k := if p < start then start - p else start - p + n;
            1 <= k <= n && Backward(start, k, n) == p
  {
  }

  /**
   * `nextIndexWithPhrase`: the first position after `currentPos`, going
   * forward and wrapping once, whose document contains the tokenized term.
   */
  function NextIndexWithPhrase(positions: seq<int>, currentPos: int, tokenStreams: seq<seq<string>>,
                               term: string, tokenizer: Tokenizer): (r: Option<nat>)
    ensures positions == [] ==> r == None
    ensures RemoveEmpty(tokenizer(term)) == [] ==> r == None
    ensures r.Some? ==> r.value < |positions| && Hit(positions, tokenStreams, RemoveEmpty(tokenizer(term)), r.value)
    ensures r.None? <==> positions == [] || RemoveEmpty(tokenizer(term)) == []
                         || forall p :: 0 <= p < |positions| ==> !Hit(positions, tokenStreams, RemoveEmpty(tokenizer(term)), p)
  {
    if |positions| == 0 then None
    else
      var phrase := RemoveEmpty(tokenizer(term));
      if |phrase| == 0 then None
      else
        var n := |positions|;
        var start := StartPosition(currentPos, n);
        var r := ScanForward(positions, tokenStreams, phrase, start, 1);
        assert r.None? ==> forall p :: 0 <= p < n ==> !Hit(positions, tokenStreams, phrase, p) by {
          if r.None? {
            forall p | 0 <= p < n ensures !Hit(positions, tokenStreams, phrase, p) {
              ForwardReaches(start, p, n);
              var k := if p > start then p - start else p - start + n;
              assert Forward(start, k, n) == p;
            }
          }
        }
        r
  }

  /**
   * `prevIndexWithPhrase`: the first position before `currentPos`, going
   * backward and wrapping once, whose document contains the tokenized term.
   */
  function PrevIndexWithPhrase(positions: seq<int>, currentPos: int, tokenStreams: seq<seq<string>>,
                               term: string, tokenizer: Tokenizer): (r: Option<nat>)
    ensures positions == [] ==> r == None
    ensures RemoveEmpty(tokenizer(term)) == [] ==> r == None
    ensures r.Some? ==> r.value < |positions| && Hit(positions, tokenStreams, RemoveEmpty(tokenizer(term)), r.value)
    ensures r.None? <==> positions == [] || RemoveEmpty(tokenizer(term)) == []
                         || forall p :: 0 <= p < |positions| ==> !Hit(positions, tokenStreams, RemoveEmpty(tokenizer(term)), p)
  {
    if |positions| == 0 then None
    else
      var phrase := RemoveEmpty(tokenizer(term));
      if |phrase| == 0 then None
      else
        var n := |positions|;
        var start := StartPosition(currentPos, n);
        var r := ScanBackward(positions, tokenStreams, phrase, start, 1);
        assert r.None? ==> forall p :: 0 <= p < n ==> !Hit(positions, tokenStreams, phrase, p) by {
          if r.None? {
            forall p | 0 <= p < n ensures !Hit(positions, tokenStreams, phrase, p) {
              BackwardReaches(start, p, n);
              var k := if p < start then start - p else start - p + n;
              assert Backward(start, k, n) == p;
            }
          }
        }
        r
  }

  /** How many forward steps from `start` reach `p` (a full turn, `n`, for `start` itself). */
  function ForwardDistance(start: int, p: int, n: int): (d: int)
    requires n > 0 && 0 <= start < n && 0 <= p < n
    ensures 1 <= d <= n && Forward(start, d, n) == p
  {
    ForwardReaches(start, p, n);
    if p > start then p - start else p - start + n
  }

  /** How many backward steps from `start` reach `p` (a full turn, `n`, for `start` itself). */
  function BackwardDistance(start: int, p: int, n: int): (d: int)
    requires n > 0 && 0 <= start < n && 0 <= p < n
    ensures 1 <= d <= n && Backward(start, d, n) == p
  {
    BackwardReaches(start, p, n);
    if p < start then start - p else start - p + n
  }

  /** Steps 1..n forward visit distinct positions: the distance of the `k`-th is `k`. */
  lemma ForwardDistanceOfStep(start: int, k: int, n: int)
    requires n > 0 && 0 <= start < n && 1 <= k <= n
    ensures ForwardDistance(start, Forward(start, k, n), n) == k
  {
    if start + k < n {
      ModUnique(start + k, n, 0, start + k);
    } else {
      ModUnique(start + k, n, 1, start + k - n);
    }
  }

  /** Steps 1..n backward visit distinct positions: the distance of the `k`-th is `k`. */
  lemma BackwardDistanceOfStep(start: int, k: int, n: int)
    requires n > 0 && 0 <= start < n && 1 <= k <= n
    ensures BackwardDistance(start, Backward(start, k, n), n) == k
  {
    if start - k >= 0 {
      ModUnique(start - k + n, n, 1, start - k);
    } else {
      ModUnique(start - k + n, n, 0, start - k + n);
    }
  }

  /**
   * The position `nextIndexWithPhrase` returns is the hit nearest ahead of
   * the current position: no hit is fewer forward steps away.
   */
  lemma NextIsNearestHit(positions: seq<int>, currentPos: int, tokenStreams: seq<seq<string>>,
                         term: string, tokenizer: Tokenizer, p: int)
    requires NextIndexWithPhrase(positions, currentPos, tokenStreams, term, tokenizer).Some?
    requires 0 <= p < |positions| && Hit(positions, tokenStreams, RemoveEmpty(tokenizer(term)), p)
    ensures var n := |positions|;
            var start := StartPosition(currentPos, n);
            ForwardDistance(start, NextIndexWithPhrase(positions, currentPos, tokenStreams, term, tokenizer).value, n)
              <= ForwardDistance(start, p, n)
  {
    var n := |positions|;
    var start := StartPosition(currentPos, n);
    var phrase := RemoveEmpty(tokenizer(term));
    var r := ScanForward(positions, tokenStreams, phrase, start, 1);
    assert NextIndexWithPhrase(positions, currentPos, tokenStreams, term, tokenizer) == r;
    var k :| 1 <= k <= n && r.value == Forward(start, k, n) && Hit(positions, tokenStreams, phrase, r.value)
             && forall j :: 1 <= j < k ==> !Hit(positions, tokenStreams, phrase, Forward(start, j, n));
    ForwardDistanceOfStep(start, k, n);
  }

  /**
   * The position `prevIndexWithPhrase` returns is the hit nearest behind
   * the current position: no hit is fewer backward steps away.
   */
  lemma PrevIsNearestHit(positions: seq<int>, currentPos: int, tokenStreams: seq<seq<string>>,
                         term: string, tokenizer: Tokenizer, p: int)
    requires PrevIndexWithPhrase(positions, currentPos, tokenStreams, term, tokenizer).Some?
    requires 0 <= p < |positions| && Hit(positions, tokenStreams, RemoveEmpty(tokenizer(term)), p)
    ensures var n := |positions|;
            var start := StartPosition(currentPos, n);
            BackwardDistance(start, PrevIndexWithPhrase(positions, currentPos, tokenStreams, term, tokenizer).value, n)
              <= BackwardDistance(start, p, n)
  {
    var n := |positions|;
    var start := StartPosition(currentPos, n);
    var phrase := RemoveEmpty(tokenizer(term));
    var r := ScanBackward(positions, tokenStreams, phrase, start, 1);
    assert PrevIndexWithPhrase(positions, currentPos, tokenStreams, term, tokenizer) == r;
    var k :| 1 <= k <= n && r.value == Backward(start, k, n) && Hit(positions, tokenStreams, phrase, r.value)
             && forall j :: 1 <= j < k ==> !Hit(positions, tokenStreams, phrase, Backward(start, j, n));
    BackwardDistanceOfStep(start, k, n);
  }

  /**
   * Wrapping once: the current position itself is returned only when no
   * other position holds the phrase.
   */
  lemma NextReturnsCurrentOnlyWhenAlone(positions: seq<int>, currentPos: int, tokenStreams: seq<seq<string>>,
                                        term: string, tokenizer: Tokenizer, p: int)
    requires |positions| > 0
    requires NextIndexWithPhrase(positions, currentPos, tokenStreams, term, tokenizer) == Some(StartPosition(currentPos, |positions|))
    requires 0 <= p < |positions| && p != StartPosition(currentPos, |positions|)
    ensures !Hit(positions, tokenStreams, RemoveEmpty(tokenizer(term)), p)
  {
    if Hit(positions, tokenStreams, RemoveEmpty(tokenizer(term)), p) {
      NextIsNearestHit(positions, currentPos, tokenStreams, term, tokenizer, p);
    }
  }

  /** The backward counterpart of `NextReturnsCurrentOnlyWhenAlone`. */
  lemma PrevReturnsCurrentOnlyWhenAlone(positions: seq<int>, currentPos: int, tokenStreams: seq<seq<string>>,
                                        term: string, tokenizer: Tokenizer, p: int)
    requires |positions| > 0
    requires PrevIndexWithPhrase(positions, currentPos, tokenStreams, term, tokenizer) == Some(StartPosition(currentPos, |positions|))
    requires 0 <= p < |positions| && p != StartPosition(currentPos, |positions|)
    ensures !Hit(positions, tokenStreams, RemoveEmpty(tokenizer(term)), p)
  {
    if Hit(positions, tokenStreams, RemoveEmpty(tokenizer(term)), p) {
      PrevIsNearestHit(positions, currentPos, tokenStreams, term, tokenizer, p);
    }
  }

  /** `s.replace(/c/g, rep)` for a one-character pattern: every `c` becomes `rep`. */
  function ReplaceChar(s: string, c: char, rep: string): (r: string)
    ensures forall x :: x in r <==> (x in s && x != c) || (c in s && x in rep)
    ensures c !in s ==> r == s
  {
    if s == [] then []
    else (if s[0] == c then rep else [s[0]]) + ReplaceChar(s[1..], c, rep)
  }

  /** `ReplaceChar` works piece by piece: it distributes over concatenation. */
  lemma {:induction false} ReplaceCharConcat(a: string, b: string, c: char, rep: string)
    ensures ReplaceChar(a + b, c, rep) == ReplaceChar(a, c, rep) + ReplaceChar(b, c, rep)
  {
    if a == [] {
      assert a + b == b;
    } else {
      assert (a + b)[1..] == a[1..] + b;
      ReplaceCharConcat(a[1..], b, c, rep);
    }
  }

  /** `escapeHTML`: `&` first, then `<`, `>`, `"` and `'`. */
  function EscapeHTML(s: string): string {
    var a := ReplaceChar(s, '&', "&amp;");
    var b := ReplaceChar(a, '<', "&lt;");
    var c := ReplaceChar(b, '>', "&gt;");
    var d := ReplaceChar(c, '"', "&quot;");
    ReplaceChar(d, '\'', "&#39;")
  }

  /** The replacement of one character on its own. */
  function EscapeChar(c: char): string {
    match c
    case '&' => "&amp;"
    case '<' => "&lt;"
    case '>' => "&gt;"
    case '"' => "&quot;"
    case '\'' => "&#39;"
    case _ => [c]
  }

  /** Reference definition: each character escaped on its own, the pieces joined. */
  function EscapeEach(s: string): string {
    if s == [] then [] else EscapeChar(s[0]) + EscapeEach(s[1..])
  }

  /** `escapeHTML` distributes over concatenation. */
  lemma EscapeConcat(a: string, b: string)
    ensures EscapeHTML(a + b) == EscapeHTML(a) + EscapeHTML(b)
  {
    ReplaceCharConcat(a, b, '&', "&amp;");
    var a1, b1 := ReplaceChar(a, '&', "&amp;"), ReplaceChar(b, '&', "&amp;");
    ReplaceCharConcat(a1, b1, '<', "&lt;");
    var a2, b2 := ReplaceChar(a1, '<', "&lt;"), ReplaceChar(b1, '<', "&lt;");
    ReplaceCharConcat(a2, b2, '>', "&gt;");
    var a3, b3 := ReplaceChar(a2, '>', "&gt;"), ReplaceChar(b2, '>', "&gt;");
    ReplaceCharConcat(a3, b3, '"', "&quot;");
    var a4, b4 := ReplaceChar(a3, '"', "&quot;"), ReplaceChar(b3, '"', "&quot;");
    ReplaceCharConcat(a4, b4, '\'', "&#39;");
  }

  /** The chained replacements on a single character give that character's escape. */
  lemma EscapeOne(c: char)
    ensures EscapeHTML([c]) == EscapeChar(c)
  {
    var s := [c];
    assert s[1..] == [];
    if c == '&' {
      assert ReplaceChar(s, '&', "&amp;") == "&amp;" + [];
      EntityIsInert("&amp;");
    } else if c == '<' {
      assert ReplaceChar(s, '<', "&lt;") == "&lt;" + [];
      EntityIsInert("&lt;");
    } else if c == '>' {
      assert ReplaceChar(s, '>', "&gt;") == "&gt;" + [];
      EntityIsInert("&gt;");
    } else if c == '"' {
      assert ReplaceChar(s, '"', "&quot;") == "&quot;" + [];
      EntityIsInert("&quot;");
    } else if c == '\'' {
      assert ReplaceChar(s, '\'', "&#39;") == "&#39;" + [];
    }
  }

  /** An entity holds none of the characters `<`, `>`, `"` and `'`, so later replacements leave it alone. */
  lemma EntityIsInert(e: string)
    requires e in {"&amp;", "&lt;", "&gt;", "&quot;", "&#39;"}
    ensures '<' !in e && '>' !in e && '"' !in e && '\'' !in e
  {
  }

  /**
   * The five chained replacements act character by character: because `&`
   * is replaced first, no replacement rewrites the output of an earlier one.
   */
  lemma {:induction false} EscapeHTMLIsPerCharacter(s: string)
    ensures EscapeHTML(s) == EscapeEach(s)
  {
    if s != [] {
      assert s == [s[0]] + s[1..];
      EscapeConcat([s[0]], s[1..]);
      EscapeOne(s[0]);
      EscapeHTMLIsPerCharacter(s[1..]);
    }
  }

  /** The five characters `escapeHTML` rewrites. */
  predicate Special(c: char) {
    c == '&' || c == '<' || c == '>' || c == '"' || c == '\''
  }

  /** Escaping never shortens, and leaves exactly the non-special characters as they are. */
  lemma EscapeCharShape(c: char)
    ensures |EscapeChar(c)| >= 1
    ensures EscapeChar(c) == [c] <==> !Special(c)
    ensures Special(c) ==> |EscapeChar(c)| > 1
    ensures forall x :: x in EscapeChar(c) ==> x != '<' && x != '>' && x != '"' && x != '\''
  {
    if Special(c) {
      EntityIsInert(EscapeChar(c));
    }
  }

  /** The escaped text holds no `<`, `>`, `"` or `'`: it cannot open a tag or close an attribute. */
  lemma {:induction false} EscapedHasNoMarkup(s: string)
    ensures forall x :: x in EscapeHTML(s) ==> x != '<' && x != '>' && x != '"' && x != '\''
  {
    EscapeHTMLIsPerCharacter(s);
    EachHasNoMarkup(s);
  }

  lemma {:induction false} EachHasNoMarkup(s: string)
    ensures forall x :: x in EscapeEach(s) ==> x != '<' && x != '>' && x != '"' && x != '\''
  {
    if s != [] {
      EscapeCharShape(s[0]);
      EachHasNoMarkup(s[1..]);
    }
  }

  /** Escaping never shortens the text. */
  lemma {:induction false} EachLength(s: string)
    ensures |EscapeEach(s)| >= |s|
    ensures (exists i :: 0 <= i < |s| && Special(s[i])) ==> |EscapeEach(s)| > |s|
  {
    if s != [] {
      EscapeCharShape(s[0]);
      EachLength(s[1..]);
      if exists i :: 0 <= i < |s| && Special(s[i]) {
        var i :| 0 <= i < |s| && Special(s[i]);
        if i > 0 {
          assert Special(s[1..][i - 1]);
        }
      }
    }
  }

  /** Text without special characters is left alone. */
  lemma {:induction false} EachPlain(s: string)
    requires forall i :: 0 <= i < |s| ==> !Special(s[i])
    ensures EscapeEach(s) == s
  {
    if s != [] {
      EscapeCharShape(s[0]);
      EachPlain(s[1..]);
    }
  }

  /** `escapeHTML` changes the text exactly when it holds one of the five special characters. */
  lemma EscapeFixesOnlyPlainText(s: string)
    ensures EscapeHTML(s) == s <==> forall i :: 0 <= i < |s| ==> !Special(s[i])
  {
    EscapeHTMLIsPerCharacter(s);
    EachLength(s);
    if forall i :: 0 <= i < |s| ==> !Special(s[i]) {
      EachPlain(s);
    }
  }

  /** Reverses `escapeHTML`: each of the five entities back to its character, everything else as is. */
  function Unescape(s: string): string
    decreases |s|
  {
    if s == [] then []
    else if |s| >= 5 && s[..5] == "&amp;" then "&" + Unescape(s[5..])
    else if |s| >= 4 && s[..4] == "&lt;" then "<" + Unescape(s[4..])
    else if |s| >= 4 && s[..4] == "&gt;" then ">" + Unescape(s[4..])
    else if |s| >= 6 && s[..6] == "&quot;" then "\"" + Unescape(s[6..])
    else if |s| >= 5 && s[..5] == "&#39;" then "'" + Unescape(s[5..])
    else [s[0]] + Unescape(s[1..])
  }

  /** Unescaping an escaped character followed by anything yields that character first. */
  lemma UnescapeStep(c: char, rest: string)
    ensures Unescape(EscapeChar(c) + rest) == [c] + Unescape(rest)
  {
    match c
    case '&' => UnescapeAmp(rest);
    case '<' => UnescapeAngle(rest);
    case '>' => UnescapeAngle(rest);
    case '"' => UnescapeQuot(rest);
    case '\'' => UnescapeApos(rest);
    case _ => UnescapePlain(c, rest);
  }

  lemma UnescapePlain(c: char, rest: string)
    requires !Special(c)
    ensures Unescape([c] + rest) == [c] + Unescape(rest)
  {
    var s := [c] + rest;
    assert s[0] == c && s[1..] == rest;
  }

  lemma UnescapeAmp(rest: string)
    ensures Unescape("&amp;" + rest) == "&" + Unescape(rest)
  {
    var s := "&amp;" + rest;
    assert s[..5] == "&amp;" && s[5..] == rest;
  }

  /** The two four-character entities, which differ only in their second character. */
  lemma UnescapeAngle(rest: string)
    ensures Unescape("&lt;" + rest) == "<" + Unescape(rest)
    ensures Unescape("&gt;" + rest) == ">" + Unescape(rest)
  {
    var lt := "&lt;" + rest;
    assert lt[..4] == "&lt;" && lt[4..] == rest;
    assert lt[1] == 'l';
    var gt := "&gt;" + rest;
    assert gt[..4] == "&gt;" && gt[4..] == rest;
    assert gt[1] == 'g';
  }

  lemma UnescapeQuot(rest: string)
    ensures Unescape("&quot;" + rest) == "\"" + Unescape(rest)
  {
    var s := "&quot;" + rest;
    assert s[..6] == "&quot;" && s[6..] == rest;
    assert s[1] == 'q';
  }

  lemma UnescapeApos(rest: string)
    ensures Unescape("&#39;" + rest) == "'" + Unescape(rest)
  {
    var s := "&#39;" + rest;
    assert s[..5] == "&#39;" && s[5..] == rest;
    assert s[1] == '#';
  }

  /** Round trip: unescaping the escaped text gives back the original text. */
  lemma {:induction false} UnescapeEscape(s: string)
    ensures Unescape(EscapeHTML(s)) == s
  {
    EscapeHTMLIsPerCharacter(s);
    UnescapeEach(s);
  }

  lemma {:induction false} UnescapeEach(s: string)
    ensures Unescape(EscapeEach(s)) == s
  {
    if s != [] {
      UnescapeStep(s[0], EscapeEach(s[1..]));
      UnescapeEach(s[1..]);
    }
  }

  /**
   * The branch of `highlightPhraseHTML` taken when the term has no tokens:
   * the whole text, escaped. `None` stands for the other branch, which
   * builds a regular expression and is not modelled.
   */
  function HighlightPhraseHTML(text: string, term: string, tokenizer: Tokenizer): (r: Option<string>)
    ensures r.Some? <==> RemoveEmpty(tokenizer(term)) == []
    ensures r.Some? ==> r.value == EscapeHTML(text)
    ensures r.Some? ==> Unescape(r.value) == text
    ensures r.Some? ==> forall x :: x in r.value ==> x != '<' && x != '>' && x != '"' && x != '\''
  {
    if RemoveEmpty(tokenizer(term)) == [] then
      UnescapeEscape(text);
      EscapedHasNoMarkup(text);
      Some(EscapeHTML(text))
    else None
  }
}
