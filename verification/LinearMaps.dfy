/** Maps that are linear for an operation x, and maps that commute; the operation is a
    parameter, so nothing here depends on how its values are represented. */
module LinearMaps {

  ghost predicate MedialAt<T(!new)>(x: (T, T) -> T, p: T, q: T, r: T, s: T) {
    x(x(p, q), x(r, s)) == x(x(p, r), x(q, s))
  }

  /** What xor, and any commutative and associative operation, satisfies. */
  ghost predicate Medial<T(!new)>(x: (T, T) -> T) {
    forall p, q, r, s :: MedialAt(x, p, q, r, s)
  }

  ghost predicate CommutativeAt<T(!new)>(x: (T, T) -> T, p: T, q: T) {
    x(p, q) == x(q, p)
  }

  ghost predicate AssociativeAt<T(!new)>(x: (T, T) -> T, p: T, q: T, r: T) {
    x(x(p, q), r) == x(p, x(q, r))
  }

  lemma MedialFromLaws<T(!new)>(x: (T, T) -> T)
    requires forall p, q :: CommutativeAt(x, p, q)
    requires forall p, q, r :: AssociativeAt(x, p, q, r)
    ensures Medial(x)
  {
    forall p, q, r, s ensures MedialAt(x, p, q, r, s) {
      assert AssociativeAt(x, p, q, x(r, s)) && AssociativeAt(x, q, r, s);
      assert CommutativeAt(x, q, r);
      assert AssociativeAt(x, r, q, s) && AssociativeAt(x, p, r, x(q, s));
    }
  }

  ghost predicate LinearAt<T(!new)>(x: (T, T) -> T, f: T -> T, s: T, t: T) {
    f(x(s, t)) == x(f(s), f(t))
  }

  ghost predicate Linear<T(!new)>(x: (T, T) -> T, f: T -> T) {
    forall s, t :: LinearAt(x, f, s, t)
  }

  ghost predicate CommuteAt<T(!new)>(f: T -> T, g: T -> T, s: T) {
    f(g(s)) == g(f(s))
  }

  ghost predicate Commute<T(!new)>(f: T -> T, g: T -> T) {
    forall s :: CommuteAt(f, g, s)
  }

  /** f and g are linear and commute. */
  ghost predicate LinearPair<T(!new)>(x: (T, T) -> T, f: T -> T, g: T -> T) {
    Linear(x, f) && Linear(x, g) && Commute(f, g)
  }

  lemma Identity<T(!new)>(x: (T, T) -> T, f: T -> T, k: T -> T)
    requires Linear(x, k)
    requires forall s :: f(s) == s
    ensures LinearPair(x, f, k)
  {
    assert forall s, t :: LinearAt(x, f, s, t);
    assert forall s :: CommuteAt(f, k, s);
  }

  lemma Composition<T(!new)>(x: (T, T) -> T, f: T -> T, g: T -> T, h: T -> T, k: T -> T)
    requires LinearPair(x, f, k) && LinearPair(x, g, k)
    requires forall s :: h(s) == f(g(s))
    ensures LinearPair(x, h, k)
  {
    forall s, t ensures LinearAt(x, h, s, t) {
      assert LinearAt(x, g, s, t) && LinearAt(x, f, g(s), g(t));
    }
    forall s ensures CommuteAt(h, k, s) {
      assert CommuteAt(g, k, s) && CommuteAt(f, k, g(s));
    }
  }

  lemma Sum<T(!new)>(x: (T, T) -> T, f: T -> T, g: T -> T, h: T -> T, k: T -> T)
    requires Medial(x)
    requires LinearPair(x, f, k) && LinearPair(x, g, k)
    requires forall s :: h(s) == x(f(s), g(s))
    ensures LinearPair(x, h, k)
  {
    forall s, t ensures LinearAt(x, h, s, t) {
      assert LinearAt(x, f, s, t) && LinearAt(x, g, s, t);
      assert MedialAt(x, f(s), f(t), g(s), g(t));
    }
    forall s ensures CommuteAt(h, k, s) {
      assert CommuteAt(f, k, s) && CommuteAt(g, k, s);
      assert LinearAt(x, k, f(s), g(s));
    }
  }

  lemma Doubling<T(!new)>(x: (T, T) -> T, f: T -> T, g: T -> T, jump: T -> T, h: T -> T, k: T -> T)
    requires Medial(x)
    requires LinearPair(x, f, k) && LinearPair(x, g, k) && LinearPair(x, jump, k)
    requires forall s :: h(s) == x(f(s), g(jump(s)))
    ensures LinearPair(x, h, k)
  {
    var j := s => g(jump(s));
    Composition(x, g, jump, j, k);
    Sum(x, f, j, h, k);
  }
}
