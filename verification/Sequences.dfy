/** Removing one element from a sequence. */
module Sequences {
  function Without<T>(s: seq<T>, i: nat): (r: seq<T>)
    requires i < |s|
    ensures |r| == |s| - 1
  {
    s[..i] + s[i + 1..]
  }

  lemma WithoutMultiset<T>(s: seq<T>, i: nat)
    requires i < |s|
    ensures multiset(Without(s, i)) == multiset(s) - multiset{s[i]}
  {
    assert s == s[..i] + [s[i]] + s[i + 1..];
  }

  /** A permutation of a non-empty sequence holds its last element somewhere; taking it out of
      both leaves permutations. */
  lemma LastMatched<T>(s: seq<T>, s': seq<T>) returns (i: nat)
    requires s != [] && multiset(s) == multiset(s')
    ensures i < |s'| == |s| && s'[i] == s[|s| - 1]
    ensures multiset(s[..|s| - 1]) == multiset(Without(s', i))
  {
    assert |s| == |multiset(s)| == |multiset(s')| == |s'|;
    var k := |s| - 1;
    assert s[k] in multiset(s');
    i :| 0 <= i < |s'| && s'[i] == s[k];
    WithoutMultiset(s, k);
    WithoutMultiset(s', i);
    assert Without(s, k) == s[..k];
  }

  lemma Associative<T>(a: seq<T>, b: seq<T>, c: seq<T>)
    ensures a + (b + c) == (a + b) + c
  {}
}
