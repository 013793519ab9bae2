/** Facts about finite sets and sequences that the other modules share. */
module Collections {

  ghost predicate Distinct<T>(xs: seq<T>) { forall i, j | 0 <= i < j < |xs| :: xs[i] != xs[j] }

  lemma Element(s: set<int>) returns (x: int)
    requires s != {}
    ensures x in s
  {
    assert (forall y :: y !in s) ==> s == {};
    x :| x in s;
  }

  lemma {:induction false} LargestExists(s: set<int>)
    requires s != {}
    ensures exists m :: m in s && forall x | x in s :: x <= m
  {
    var x := Element(s);
    if s == {x} {
      assert x in s && forall y | y in s :: y <= x;
    } else {
      LargestExists(s - {x});
      var m :| m in s - {x} && forall y | y in s - {x} :: y <= m;
      var top := if x < m then m else x;
      forall y | y in s ensures y <= top {
        assert y == x || y in s - {x};
      }
      assert top in s;
    }
  }
}
