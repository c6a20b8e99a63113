/** Facts about sequences that several modules need. */
module Sequences {

  lemma Regroup<T>(a: seq<T>, b: seq<T>, c: seq<T>)
    ensures a + (b + c) == (a + b) + c
  {
  }

  lemma SameTail<T>(a: seq<T>, i: nat, b: seq<T>, k: nat)
    requires i < |a| && k <= |b| && a[i..] == b[k..]
    ensures k < |b| && a[i] == b[k] && a[i + 1..] == b[k + 1..]
  {
    assert a[i..][0] == a[i];
    assert a[i..][1..] == a[i + 1..] && b[k..][1..] == b[k + 1..];
  }
}
