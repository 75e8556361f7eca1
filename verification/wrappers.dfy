/** Optional values, used by the decoders of this model,
    and small sequence facts shared by its proofs. */
module Wrappers {

  datatype Option<+T> = None | Some(value: T)

  /** The last element of a non-empty sequence. */
  function Last<T>(s: seq<T>): T
    requires |s| > 0
  {
    s[|s| - 1]
  }

  /** A non-empty sequence without its last element. */
  function DropLast<T>(s: seq<T>): seq<T>
    requires |s| > 0
  {
    s[..|s| - 1]
  }

  /** `f` applied to each element, in order. */
  function MapSeq<A, B>(xs: seq<A>, f: A -> B): (ys: seq<B>)
    ensures |ys| == |xs|
  {
    if |xs| == 0 then [] else MapSeq(DropLast(xs), f) + [f(Last(xs))]
  }

  lemma {:induction false} MapSeqAt<A, B>(xs: seq<A>, f: A -> B)
    ensures forall i :: 0 <= i < |xs| ==> MapSeq(xs, f)[i] == f(xs[i])
    decreases |xs|
  {
    if |xs| > 0 {
      MapSeqAt(DropLast(xs), f);
    }
  }

  /** Two adjacent slices make up the longer prefix. */
  lemma SlicesJoin<T>(s: seq<T>, i: nat, j: nat)
    requires i <= j <= |s|
    ensures s[..i] + s[i..j] == s[..j]
  {
  }

  /** Appending one element after a concatenation. */
  lemma AppendOne<T>(a: seq<T>, b: seq<T>, x: T)
    ensures a + (b + [x]) == (a + b) + [x]
  {
  }
}
