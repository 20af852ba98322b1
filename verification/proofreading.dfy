/** The boundary between the spell checker and a proofreader. */
module Proofreading {

  /** A reported span of the checked text (`ITextWithPosition`): `offset` and `length`
      count characters of the string handed to `proofreadText`. */
  datatype Match = Match(offset: int, length: int, word: string)

  /** The offset of a match, as a key for ordering statements. */
  function OffsetOf(m: Match): int { m.offset }

  /** A match lies inside a checked text of length `n`. */
  predicate InText(m: Match, n: int) {
    0 <= m.offset && 0 <= m.length && m.offset + m.length <= n
  }
}
