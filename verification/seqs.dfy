/** Sequence predicates shared by the segmenter and the pagination models. */
module Seqs {
  /** `a` is `b` with some elements left out, order kept. */
  predicate Subseq<T(==)>(a: seq<T>, b: seq<T>)
    decreases |b|
  {
    if a == [] then true
    else if b == [] then false
    else (a[0] == b[0] && Subseq(a[1..], b[1..])) || Subseq(a, b[1..])
  }
}
