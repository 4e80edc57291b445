/** Where the unsigned 32-bit words of the code and whole numbers part. */
module Words {

  const WORD := 0x1_0000_0000
  const HALF := 0x8000_0000

  /** What a whole number becomes in an `unsigned long` of 32 bits. */
  function Word(i: int): int {
    i % WORD
  }

  datatype Kind = Next | Early | Old

  /** How a data message numbered `q` is classed against the last number handed up. */
  function Classify(sequence: int, q: int): Kind {
    if sequence + 1 == q then Next else if sequence < q then Early else Old
  }

  /** The same on words, as the code does it. */
  function ClassifyWord(sequence: int, q: int): Kind {
    if Word(sequence + 1) == q then Next else if sequence < q then Early else Old
  }

  /** A first heartbeat numbered 0 leaves `sequence` at the word for -1. The code then still
      takes message 0 as next, but drops every early message instead of caching it: it classes
      every message right exactly when `sequence` is not negative or the message is number 0. */
  lemma ClassifyWordExact(sequence: int, q: int)
    requires -1 <= sequence <= HALF && 0 <= q < HALF
    ensures ClassifyWord(Word(sequence), q) == Classify(sequence, q) <==> sequence >= 0 || q == 0
    ensures sequence == -1 && q > 0 ==> ClassifyWord(Word(sequence), q) == Old
  {
  }
}
