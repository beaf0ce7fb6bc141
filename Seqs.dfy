/** Small facts about sequence concatenation that the proofs of the other
    modules use at specific points instead of leaving them to the solver. */
module Seqs {

  lemma HeadTailAppend<T>(p: seq<T>, q: seq<T>)
    requires p != []
    ensures (p + q)[0] == p[0] && (p + q)[1..] == p[1..] + q
  {
  }

  lemma ConsAppend<T>(h: T, p: seq<T>, q: seq<T>)
    ensures [h] + (p + q) == ([h] + p) + q
  {
  }

  lemma AppendAssoc<T>(a: seq<T>, b: seq<T>, c: seq<T>)
    ensures (a + b) + c == a + (b + c)
  {
  }

  lemma InitLast<T>(s: seq<T>)
    requires s != []
    ensures s == s[..|s| - 1] + [s[|s| - 1]]
  {
  }

  /** Dropping the last element of `p + q` drops the last element of `q`. */
  lemma AppendInitLast<T>(p: seq<T>, q: seq<T>)
    requires q != []
    ensures (p + q)[..|p + q| - 1] == p + q[..|q| - 1]
    ensures (p + q)[|p + q| - 1] == q[|q| - 1]
  {
  }
}
