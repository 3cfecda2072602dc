/**
 * The record shapes shared by the significant-terms pipeline:
 * scored terms, significance heuristics and tokenizers.
 */
module Types {

  /** A term with its significance score and the two raw document counts it was scored from. */
  datatype TermScore = TermScore(term: string, score: real, fgCount: nat, bgCount: nat)

  /**
   * A named, stateless scoring function
   * `score(subsetFreq, subsetSize, supersetFreq, supersetSize)`.
   * Scores are exact rationals here; the source computes them in floating point.
   */
  datatype SignificanceHeuristic = SignificanceHeuristic(
    name: string,
    score: (nat, nat, nat, nat) -> real
  )

  /** Maps raw text to its ordered list of normalised tokens. */
  type Tokenizer = string -> seq<string>
}
