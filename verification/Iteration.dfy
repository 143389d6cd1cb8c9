/** Iterating a map that is linear for some operation. */
module Iteration {

  function Iterate<W>(f: W -> W, w: W, n: nat): (r: W) {
    if n == 0 then w else f(Iterate(f, w, n - 1))
  }

  ghost predicate Linear<W(!new)>(f: W -> W, plus: (W, W) -> W) {
    forall x, y :: f(plus(x, y)) == plus(f(x), f(y))
  }

  ghost predicate Injective<W(!new)>(f: W -> W) {
    forall x, y | f(x) == f(y) :: x == y
  }

  lemma {:induction false} IterateLinear<W(!new)>(f: W -> W, plus: (W, W) -> W, x: W, y: W, n: nat)
    requires Linear(f, plus)
    ensures Iterate(f, plus(x, y), n) == plus(Iterate(f, x, n), Iterate(f, y, n))
  {
    if n > 0 { IterateLinear(f, plus, x, y, n - 1); }
  }

  lemma {:induction false} IterateInjective<W(!new)>(f: W -> W, x: W, y: W, n: nat)
    requires Injective(f) && Iterate(f, x, n) == Iterate(f, y, n)
    ensures x == y
  {
    if n > 0 { IterateInjective(f, x, y, n - 1); }
  }

  lemma Iterate8<W>(f: W -> W, w: W)
    ensures Iterate(f, w, 8) == f(f(f(f(f(f(f(f(w))))))))
  {
    assert Iterate(f, w, 2) == f(f(w));
    assert Iterate(f, w, 4) == f(f(Iterate(f, w, 2)));
    assert Iterate(f, w, 6) == f(f(Iterate(f, w, 4)));
  }
}
