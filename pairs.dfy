/** The (character, frequency) pair that the priority queue orders and the tree stores.
    The Java class has two private fields set once by its constructor and read only by
    getters; as a datatype the constructor stores both values unchanged, the getters are
    the destructors `character` and `frequency`, and no value can change after creation. */
module Pairs {

  /** Character marker of the end-of-stream pseudo-symbol. */
  const EOF: int := -1

  /** Character marker of an internal tree node. */
  const INTERNAL: int := -2

  datatype CharFrequencyPair = CharFrequencyPair(character: int, frequency: int)

  /** A real byte value; the two markers lie outside this range. */
  predicate IsByte(c: int) {
    0 <= c < 256
  }
}
