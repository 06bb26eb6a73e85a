/**
  General facts about sequences that the loop proofs use where the solver
  does not find them by itself.
 */
module SeqFacts {

  /** The prefix of full length is the sequence itself. */
  lemma WholePrefix<T>(s: seq<T>)
    ensures s[..|s|] == s
  {
  }

  lemma ConcatAssoc<T>(a: seq<T>, b: seq<T>, c: seq<T>)
    ensures a + (b + c) == a + b + c
  {
  }
}
