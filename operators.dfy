/**
 * The reduction operators. A reduce is only defined for an operator that is
 * associative and commutative; the engine does not check this, so every use
 * of these laws below is a precondition the caller must meet.
 */
module Operators {

  ghost predicate Associative<T(!new)>(op: (T, T) -> T) {
    forall a, b, c :: op(op(a, b), c) == op(a, op(b, c))
  }

  ghost predicate Commutative<T(!new)>(op: (T, T) -> T) {
    forall a, b :: op(a, b) == op(b, a)
  }

  /** A lawful reduction operator: the grouping and the order of the fold do not matter. */
  ghost predicate Lawful<T(!new)>(op: (T, T) -> T) {
    Associative(op) && Commutative(op)
  }

  /** The built-in sum operator (MPI::plus). */
  function Plus(a: int, b: int): int { a + b }

  /** The built-in product operator (MPI::multiplies). */
  function Multiplies(a: int, b: int): int { a * b }

  /** The built-in maximum operator (MPI::max). */
  function Max(a: int, b: int): (m: int)
    ensures a <= m && b <= m && (m == a || m == b)
  {
    if a >= b then a else b
  }

  /** The built-in minimum operator (MPI::min). */
  function Min(a: int, b: int): (m: int)
    ensures m <= a && m <= b && (m == a || m == b)
  {
    if a <= b then a else b
  }

  lemma PlusIsLawful()
    ensures Lawful(Plus)
  {
  }

  lemma MultipliesIsLawful()
    ensures Lawful(Multiplies)
  {
    forall a: int, b: int, c: int
      ensures Multiplies(Multiplies(a, b), c) == Multiplies(a, Multiplies(b, c))
    {
      assert (a * b) * c == a * (b * c);
    }
  }

  lemma MaxIsLawful()
    ensures Lawful(Max)
  {
  }

  lemma MinIsLawful()
    ensures Lawful(Min)
  {
  }
}
