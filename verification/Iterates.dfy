/** A function applied over and over. */
module Iterates {

  function Iterate<T>(f: T -> T, v: T, n: nat): T
    decreases n
  {
    if n == 0 then v else Iterate(f, f(v), n - 1)
  }

  lemma {:induction false} IterateAdd<T>(f: T -> T, v: T, m: nat, n: nat)
    ensures Iterate(f, Iterate(f, v, m), n) == Iterate(f, v, m + n)
    decreases m
  {
    if m > 0 {
      IterateAdd(f, f(v), m - 1, n);
    }
  }

  /** A map that turns steps of `f` into steps of `g` does so for any number of them. */
  lemma {:induction false} IterateMaps<S(!new), T>(f: S -> S, g: T -> T, image: S -> T, v: S, n: nat)
    requires forall u :: image(f(u)) == g(image(u))
    ensures image(Iterate(f, v, n)) == Iterate(g, image(v), n)
    decreases n
  {
    if n > 0 {
      IterateMaps(f, g, image, f(v), n - 1);
    }
  }
}
