/** Sequence helpers shared by the path, ordering and document modules. */
module Seqs {

  /** Concatenation of a sequence of sequences, in order. */
  function Flatten<T>(ss: seq<seq<T>>): (r: seq<T>)
    ensures |ss| == 0 ==> r == []
  {
    if |ss| == 0 then [] else ss[0] + Flatten(ss[1..])
  }

  lemma {:induction false} FlattenAppend<T>(a: seq<seq<T>>, b: seq<seq<T>>)
    ensures Flatten(a + b) == Flatten(a) + Flatten(b)
    decreases |a|
  {
    if |a| == 0 {
      assert a + b == b;
    } else {
      assert (a + b)[1..] == a[1..] + b;
      FlattenAppend(a[1..], b);
    }
  }

  /** Flattening single-element sequences gives back the elements. */
  lemma {:induction false} FlattenSingletons<T>(ss: seq<seq<T>>, xs: seq<T>)
    requires |ss| == |xs|
    requires forall i | 0 <= i < |ss| :: ss[i] == [xs[i]]
    ensures Flatten(ss) == xs
    decreases |ss|
  {
    if |ss| > 0 {
      FlattenSingletons(ss[1..], xs[1..]);
    }
  }

  /** No element occurs twice. */
  predicate NoDup<T(==)>(s: seq<T>) {
    forall i, j | 0 <= i < j < |s| :: s[i] != s[j]
  }

  /** Position of the first occurrence of `x` in `s`. */
  function FirstIndex<T(==)>(s: seq<T>, x: T): (i: nat)
    requires x in s
    ensures i < |s| && s[i] == x
    ensures x !in s[..i]
  {
    if s[0] == x then 0 else 1 + FirstIndex(s[1..], x)
  }

  /** Applies `f` to every element, keeping the order. */
  function MapSeq<T, U>(f: T -> U, s: seq<T>): (r: seq<U>)
    ensures |r| == |s|
    ensures forall i | 0 <= i < |s| :: r[i] == f(s[i])
  {
    if |s| == 0 then [] else [f(s[0])] + MapSeq(f, s[1..])
  }
}
