/** Facts about the sizes of finite sets. */
module Counting {

  /** An injective image has as many elements. */
  lemma {:induction false} ImageCard<T(!new), U(!new)>(a: set<T>, g: T -> U, b: set<U>)
    requires forall y :: y in b <==> exists x :: x in a && g(x) == y
    requires forall x, x' :: x in a && x' in a && g(x) == g(x') ==> x == x'
    ensures |a| == |b|
    decreases |a|
  {
    if |a| == 0 {
      assert forall y :: y !in b;
      assert b == {};
    } else {
      var x :| x in a;
      assert g(x) in b;
      ImageCard(a - {x}, g, b - {g(x)});
    }
  }

  lemma SubsetCard<T>(a: set<T>, b: set<T>)
    requires a <= b
    ensures |a| <= |b|
  {
    assert b == a + (b - a);
  }

  lemma Singleton<T>(a: set<T>, x: T)
    requires x in a && |a| <= 1
    ensures a == {x}
  {
    assert |a - {x}| == |a| - 1;
  }
}
