/** Facts about sequences in general, kept apart so that proofs about strings can cite them cheaply. */
module Sequences {

  lemma AppendAssociates<T>(x: seq<T>, y: seq<T>, z: seq<T>)
    ensures x + (y + z) == (x + y) + z
  {
  }

  lemma HeadAndTail<T>(x: seq<T>, y: seq<T>)
    requires |x| > 0
    ensures (x + y)[0] == x[0] && (x + y)[1..] == x[1..] + y
  {
  }

  lemma SliceSplits<T>(s: seq<T>, i: nat, j: nat, k: nat)
    requires i <= j <= k <= |s|
    ensures s[i..k] == s[i..j] + s[j..k]
  {
  }

  lemma SliceCons<T>(s: seq<T>, i: nat, j: nat)
    requires i < j <= |s|
    ensures s[i..j] == [s[i]] + s[i + 1..j]
  {
  }

  /** `t` lies in `s` from position q. */
  predicate OccursAt<T(==)>(s: seq<T>, q: nat, t: seq<T>) {
    q + |t| <= |s| && s[q..q + |t|] == t
  }

  lemma SlicesConcat<T>(s: seq<T>, p: nat, a: seq<T>, b: seq<T>)
    requires OccursAt(s, p, a) && OccursAt(s, p + |a|, b)
    ensures OccursAt(s, p, a + b)
  {
    SliceSplits(s, p, p + |a|, p + |a| + |b|);
  }

  lemma SlicesSplit<T>(s: seq<T>, p: nat, a: seq<T>, b: seq<T>)
    requires OccursAt(s, p, a + b)
    ensures OccursAt(s, p, a) && OccursAt(s, p + |a|, b)
  {
    assert s[p..p + |a|] == (a + b)[..|a|];
    assert s[p + |a|..p + |a| + |b|] == (a + b)[|a|..];
  }
}
