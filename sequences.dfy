/** Order-preserving subsequences, as produced by `Array.prototype.filter`. */
module Sequences {

  /** `a` keeps some of the entries of `b`, in their order in `b`. */
  predicate IsSubsequence<T(==)>(a: seq<T>, b: seq<T>)
    decreases |b|
  {
    a == [] ||
    (b != [] && ((a[0] == b[0] && IsSubsequence(a[1..], b[1..])) || IsSubsequence(a, b[1..])))
  }

  lemma {:induction false} TakeIsSubsequence<T>(a: seq<T>, n: nat)
    requires n <= |a|
    ensures IsSubsequence(a[..n], a)
  {
    if n > 0 {
      assert a[..n][1..] == a[1..][..n - 1];
      TakeIsSubsequence(a[1..], n - 1);
    }
  }

  lemma {:induction false} SubsequenceTrans<T>(a: seq<T>, b: seq<T>, c: seq<T>)
    requires IsSubsequence(a, b) && IsSubsequence(b, c)
    ensures IsSubsequence(a, c)
    decreases |c|
  {
    if a != [] {
      if IsSubsequence(b, c[1..]) {
        SubsequenceTrans(a, b, c[1..]);
      } else if a[0] == b[0] && IsSubsequence(a[1..], b[1..]) {
        SubsequenceTrans(a[1..], b[1..], c[1..]);
      } else {
        SubsequenceTrans(a, b[1..], c[1..]);
      }
    }
  }
}
