/** Sums over finite sets: the value of a fold over a Go map, which visits the keys in no fixed order. */
module Sums {
  ghost function SumOver<K(!new)>(s: set<K>, f: K -> nat): nat {
    if s == {} then 0 else
      var k :| k in s;
      f(k) + SumOver(s - {k}, f)
  }

  lemma SumNone<K(!new)>(f: K -> nat)
    ensures SumOver({}, f) == 0
  {
  }

  /** Any key may be taken first. */
  lemma {:induction false} SumExtract<K(!new)>(s: set<K>, f: K -> nat, k: K)
    requires k in s
    ensures SumOver(s, f) == f(k) + SumOver(s - {k}, f)
    decreases |s|
  {
    var j :| j in s && SumOver(s, f) == f(j) + SumOver(s - {j}, f);
    if j != k {
      SumExtract(s - {j}, f, k);
      SumExtract(s - {k}, f, j);
      assert s - {j} - {k} == s - {k} - {j};
    }
  }

  lemma {:induction false} SumAdd<K(!new)>(s: set<K>, f: K -> nat, g: K -> nat, h: K -> nat)
    requires forall k | k in s :: h(k) == f(k) + g(k)
    ensures SumOver(s, h) == SumOver(s, f) + SumOver(s, g)
    decreases |s|
  {
    if s != {} {
      var k :| k in s;
      SumExtract(s, f, k);
      SumExtract(s, g, k);
      SumExtract(s, h, k);
      SumAdd(s - {k}, f, g, h);
    }
  }
}
