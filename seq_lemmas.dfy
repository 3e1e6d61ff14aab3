/** Facts about sequences of any element type, used to keep sequence equalities cheap to prove. */
module SeqLemmas {

  lemma UpdateTwice<T>(B: seq<T>, k: nat, v: T, w: T)
    requires k < |B|
    ensures B[k := v][k := w] == B[k := w]
  {
  }

  lemma UpdateSame<T>(B: seq<T>, k: nat)
    requires k < |B|
    ensures B[k := B[k]] == B
  {
  }

  lemma TakeSplit<T>(a: seq<T>, p: nat, q: nat)
    requires p <= q <= |a|
    ensures a[..q] == a[..p] + a[p..q]
  {
  }

  lemma AppendAssoc<T>(a: seq<T>, b: seq<T>, c: seq<T>)
    ensures a + (b + c) == (a + b) + c
  {
  }
}
