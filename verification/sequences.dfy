/** Two facts about concatenation that the inductions over logs and streams share. */
module Sequences {
  lemma ConcatAssociative<T>(a: seq<T>, b: seq<T>, c: seq<T>)
    ensures a + (b + c) == (a + b) + c
  {
  }

  lemma TailOfConcat<T>(a: seq<T>, b: seq<T>)
    requires a != []
    ensures (a + b)[0] == a[0] && (a + b)[1..] == a[1..] + b
  {
  }

  lemma EmptyConcat<T>(a: seq<T>)
    ensures [] + a == a && a + [] == a
  {
  }
}
