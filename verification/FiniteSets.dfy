/** Sizes of finite sets. */
module FiniteSets {

  lemma {:induction false} SubsetSize<T>(a: set<T>, b: set<T>)
    requires a <= b
    ensures |a| <= |b|
  {
    if a != {} {
      var x :| x in a;
      SubsetSize(a - {x}, b - {x});
    }
  }

  lemma {:induction false} BoundedSet(s: set<nat>, n: nat)
    requires forall x :: x in s ==> x < n
    ensures |s| <= n
  {
    if n > 0 {
      BoundedSet(s - {n - 1}, n - 1);
    } else {
      assert s == {};
    }
  }

  /** Elements that a function tells apart by numbers below `n` are at most `n`. */
  lemma {:induction false} ImageBound<T(!new)>(s: set<T>, f: T -> nat, n: nat) returns (image: set<nat>)
    requires forall x :: x in s ==> f(x) < n
    requires forall x, y :: x in s && y in s && f(x) == f(y) ==> x == y
    ensures |image| == |s| <= n && forall i :: i in image <==> exists x :: x in s && i == f(x)
  {
    image := {};
    if s != {} {
      var x :| x in s;
      image := ImageBound(s - {x}, f, n);
      image := image + {f(x)};
    }
    BoundedSet(image, n);
  }
}
