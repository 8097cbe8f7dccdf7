/** A min-first priority queue seen as a multiset: polling may return any minimal element, since the library leaves
    the order of equal elements open. */
module MinFirst {

  ghost predicate TotalPreorder<T(!new)>(le: (T, T) -> bool) {
    && (forall a, b :: le(a, b) || le(b, a))
    && (forall a, b, c :: le(a, b) && le(b, c) ==> le(a, c))
  }

  ghost predicate IsMin<T>(x: T, s: multiset<T>, le: (T, T) -> bool) {
    x in s && forall y | y in s :: le(x, y)
  }

  lemma {:induction false} MinExists<T(!new)>(s: multiset<T>, le: (T, T) -> bool)
    requires TotalPreorder(le) && |s| > 0
    ensures exists x :: IsMin(x, s, le)
    decreases |s|
  {
    var x :| x in s;
    var rest := s - multiset{x};
    if |rest| == 0 {
      assert forall y | y in s :: y == x || y in rest;
      assert IsMin(x, s, le);
    } else {
      MinExists(rest, le);
      var m :| IsMin(m, rest, le);
      var best := if le(x, m) then x else m;
      forall y | y in s
        ensures le(best, y)
      {
        assert y == x || y in rest;
      }
      assert IsMin(best, s, le);
    }
  }
}
