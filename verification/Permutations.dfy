/** Taking sequences apart, and an element out of one, for proofs that follow one ordering of the
    same elements through another. */
module Permutations {

  lemma Associates<T>(x: seq<T>, y: seq<T>, z: seq<T>)
    ensures x + (y + z) == (x + y) + z
  {
  }

  lemma Removed<T>(s: seq<T>, k: nat)
    requires k < |s|
    ensures multiset(s) == multiset(s[..k] + s[k + 1..]) + multiset{s[k]}
  {
    assert s == s[..k] + ([s[k]] + s[k + 1..]);
    assert multiset(s[k + 1..] + [s[k]]) == multiset(s[k + 1..]) + multiset{s[k]};
  }

  lemma HeadOff<T>(s: seq<T>)
    requires s != []
    ensures multiset(s) == multiset(s[1..]) + multiset{s[0]}
  {
    assert s == [s[0]] + s[1..];
  }

  lemma Cancel<T>(m: multiset<T>, n: multiset<T>, x: T)
    requires m + multiset{x} == n + multiset{x}
    ensures m == n
  {
    assert m == m + multiset{x} - multiset{x} == n;
  }

  lemma IndexOf<T>(b: seq<T>, x: T) returns (k: nat)
    requires x in multiset(b)
    ensures k < |b| && b[k] == x
  {
    k :| 0 <= k < |b| && b[k] == x;
  }

  /** Where the first element of a is in b. */
  lemma TakeOut<T>(a: seq<T>, b: seq<T>) returns (k: nat)
    requires a != [] && multiset(a) == multiset(b)
    ensures k < |b| && b[k] == a[0]
    ensures multiset(b[..k] + b[k + 1..]) == multiset(a[1..])
  {
    k := IndexOf(b, a[0]);
    Removed(b, k);
    HeadOff(a);
    Cancel(multiset(b[..k] + b[k + 1..]), multiset(a[1..]), a[0]);
  }
}
