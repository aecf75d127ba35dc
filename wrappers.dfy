/** The optional value used where the source returns `Option`, and two
    facts about concatenation the proofs elsewhere lean on. */
module Wrappers {
  datatype Option<T> = None | Some(value: T)

  lemma EmptyAppend<T>(x: seq<T>)
    ensures [] + x == x
  {
  }

  /** Concatenation regroups freely. */
  lemma AppendAssoc<T>(s: seq<T>, x: seq<T>, y: seq<T>)
    ensures (s + x) + y == s + (x + y)
  {
  }
}
