/** Sequences without repetition. */
module Sequences {
  ghost predicate Distinct<T>(s: seq<T>) {
    forall i, j :: 0 <= i < j < |s| ==> s[i] != s[j]
  }

  /** Two sequences together repeat nothing exactly if neither does and they have nothing in common. */
  lemma DistinctTogether<T>(a: seq<T>, b: seq<T>)
    ensures Distinct(a + b) <==> Distinct(a) && Distinct(b) && forall x :: x in b ==> x !in a
  {
    var c := a + b;
    if Distinct(a) && Distinct(b) && forall x :: x in b ==> x !in a {
      forall i, j | 0 <= i < j < |c|
        ensures c[i] != c[j]
      {
        if i < |a| <= j {
          assert b[j - |a|] in b && a[i] in a;
        }
      }
    }
    if Distinct(c) {
      forall i, j | 0 <= i < |a| && 0 <= j < |b|
        ensures a[i] != b[j]
      {
        assert c[i] == a[i] && c[|a| + j] == b[j];
      }
      forall i, j | 0 <= i < j < |b|
        ensures b[i] != b[j]
      {
        assert c[|a| + i] == b[i] && c[|a| + j] == b[j];
      }
      assert forall i :: 0 <= i < |a| ==> c[i] == a[i];
    }
  }

  lemma {:induction false} DistinctCardinality<T>(s: seq<T>)
    requires Distinct(s)
    ensures |set x | x in s| == |s|
  {
    if s != [] {
      var before, last := s[..|s| - 1], s[|s| - 1];
      DistinctCardinality(before);
      assert (set x | x in s) == (set x | x in before) + {last};
    }
  }
}
