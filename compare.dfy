/** The integer callbacks handed to the engine: the `*_equals` predicates
    and the `*_asc` and `*_desc` comparators generated for every integer
    type (and for bool and char). Nothing is computed on the values, so
    every width behaves alike and a value is an `int` here. */
module Comparators {

  /** The `*_equals` callback of an integer type: it holds exactly when
      neither value is greater than the other, so it agrees with the order
      the comparators use. */
  predicate Equals(a: int, b: int): (r: bool)
    ensures r <==> !(a < b) && !(a > b)
  {
    a == b
  }

  /** The generated comparator body: 0 when the values are equal, `val`
      when the first is greater and `-val` otherwise. */
  function Compare(a: int, b: int, val: int): (r: int)
    ensures a == b ==> r == 0
    ensures a != b ==> r == val || r == -val
  {
    if Equals(a, b) then 0 else if a > b then val else -val
  }

  /** The `*_asc` comparator: negative, zero or positive as the first value
      is smaller than, equal to or greater than the second. */
  function Asc(a: int, b: int): (r: int)
    ensures -1 <= r <= 1
    ensures r < 0 <==> a < b
    ensures r == 0 <==> a == b
    ensures r > 0 <==> a > b
  {
    Compare(a, b, 1)
  }

  /** The `*_desc` comparator: the order of `*_asc` turned around. */
  function Desc(a: int, b: int): (r: int)
    ensures -1 <= r <= 1
    ensures r < 0 <==> a > b
    ensures r == 0 <==> a == b
    ensures r > 0 <==> a < b
  {
    Compare(a, b, -1)
  }

  /** Swapping the arguments negates the answer. */
  lemma AscAntisymmetric(a: int, b: int)
    ensures Asc(a, b) == -Asc(b, a)
    ensures Desc(a, b) == -Desc(b, a)
  {
  }

  /** Descending order is ascending order with the arguments swapped. */
  lemma DescIsSwappedAsc(a: int, b: int)
    ensures Desc(a, b) == Asc(b, a) == -Asc(a, b)
  {
  }

  /** Both comparators are transitive, as sort requires. */
  lemma ComparatorsTransitive(a: int, b: int, c: int)
    ensures Asc(a, b) <= 0 && Asc(b, c) <= 0 ==> Asc(a, c) <= 0
    ensures Desc(a, b) <= 0 && Desc(b, c) <= 0 ==> Desc(a, c) <= 0
  {
  }
}
