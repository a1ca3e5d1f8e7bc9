/** Regroupings of sequences that the proofs name instead of leaving them to the solver. */
module Sequences {

  lemma ConcatAssociates<T>(s: seq<T>, t: seq<T>, u: seq<T>)
    ensures (s + t) + u == s + (t + u)
  {
  }

  lemma HeadTailConcat<T>(s: seq<T>, t: seq<T>)
    requires s != []
    ensures [s[0]] + (s[1..] + t) == s + t
  {
    assert s == [s[0]] + s[1..];
  }

  lemma SplitLast<T>(p: seq<T>, q: seq<T>)
    requires q != []
    ensures p + q == (p + q[..|q| - 1]) + [q[|q| - 1]]
  {
  }

  lemma MoveFront<T>(p: seq<T>, q: seq<T>)
    requires q != []
    ensures (p + [q[0]]) + q[1..] == p + q
  {
  }
}
