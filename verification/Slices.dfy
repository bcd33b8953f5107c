/** A sequence standing at a place in another. */
module Slices {
  predicate At<T(==)>(s: seq<T>, i: nat, w: seq<T>) { i + |w| <= |s| && s[i..i + |w|] == w }

  lemma AtConcat<T>(s: seq<T>, i: nat, a: seq<T>, b: seq<T>)
    ensures At(s, i, a + b) <==> At(s, i, a) && At(s, i + |a|, b)
  {
    var j, k := i + |a|, i + |a| + |b|;
    if k <= |s| {
      assert s[i..k] == s[i..j] + s[j..k];
      assert (a + b)[..|a|] == a && (a + b)[|a|..] == b;
      assert s[i..k][..|a|] == s[i..j] && s[i..k][|a|..] == s[j..k];
    }
  }

  lemma AtIndex<T>(s: seq<T>, i: nat, w: seq<T>, k: nat)
    requires At(s, i, w) && k < |w|
    ensures i + k < |s| && s[i + k] == w[k]
  {
    assert s[i..i + |w|][k] == s[i + k];
  }
}
