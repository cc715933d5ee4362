/** Arrays of arrays. At dimension d > 1 every element of an array is
    itself an array of dimension d - 1; the depth is not stored in the
    arrays but passed by the caller to every operation, as in the engine.
    Values here are the arrays' contents (capacities are the Buffer
    class's concern). */
module Dims {
  import opened SeqSpec

  datatype Nested<T> = Leaf(items: seq<T>) | Node(kids: seq<Nested<T>>)

  function Length<T>(a: Nested<T>): nat
  {
    if a.Leaf? then |a.items| else |a.kids|
  }

  /** `a` has the shape of an array built at dimension `d` (a dimension of
      1 or less is the scalar case). */
  ghost predicate HasDim<T>(a: Nested<T>, d: nat)
    decreases a
  {
    if d <= 1 then a.Leaf?
    else a.Node? && forall i :: 0 <= i < |a.kids| ==> HasDim(a.kids[i], d - 1)
  }

  /** Structural equality down to the scalars, which are compared with
      `eq`; lengths are compared first at every level. */
  function Equals<T>(a: Nested<T>, b: Nested<T>, d: nat, eq: (T, T) -> bool): (r: bool)
    ensures r ==> Length(a) == Length(b)
    decreases a
  {
    if d > 1 then
      a.Node? && b.Node? && |a.kids| == |b.kids| &&
      forall i :: 0 <= i < |a.kids| ==> Equals(a.kids[i], b.kids[i], d - 1, eq)
    else
      a.Leaf? && b.Leaf? && ElemsEqual(a.items, b.items, eq)
  }

  /** Equality of arrays of dimension `d`, as a relation on elements. */
  function EqAt<T>(d: nat, eq: (T, T) -> bool): (Nested<T>, Nested<T>) -> bool
  {
    (x, y) => Equals(x, y, d, eq)
  }

  /** Deep copy: a new outer array whose elements are deep copies. */
  function Copy<T>(a: Nested<T>, d: nat): (r: Nested<T>)
    ensures Length(r) == Length(a) && (r.Node? <==> a.Node?)
    decreases a
  {
    if d > 1 && a.Node? then
      Node(seq(|a.kids|, i requires 0 <= i < |a.kids| => Copy(a.kids[i], d - 1)))
    else a
  }

  /** A deep copy is the same value at every level: same lengths, same
      elements, and no part of it is shared state with the source. */
  lemma {:induction false} CopyIsSame<T>(a: Nested<T>, d: nat)
    ensures Copy(a, d) == a
    decreases a
  {
    if d > 1 && a.Node? {
      forall i | 0 <= i < |a.kids| ensures Copy(a.kids[i], d - 1) == a.kids[i] {
        CopyIsSame(a.kids[i], d - 1);
      }
      assert Copy(a, d).kids == a.kids;
    }
  }

  /** Equals is reflexive when the scalar comparison is. */
  lemma {:induction false} EqualsReflexive<T>(a: Nested<T>, d: nat, eq: (T, T) -> bool)
    requires HasDim(a, d) && forall x :: eq(x, x)
    ensures Equals(a, a, d, eq)
    decreases a
  {
    if d > 1 {
      forall i | 0 <= i < |a.kids| ensures Equals(a.kids[i], a.kids[i], d - 1, eq) {
        EqualsReflexive(a.kids[i], d - 1, eq);
      }
    }
  }

  /** A deep copy at dimension `d` keeps the dimension and compares equal
      to its source at that dimension. */
  lemma CopyEqualsSource<T>(a: Nested<T>, d: nat, eq: (T, T) -> bool)
    requires HasDim(a, d) && forall x :: eq(x, x)
    ensures HasDim(Copy(a, d), d) && Equals(Copy(a, d), a, d, eq)
  {
    CopyIsSame(a, d);
    EqualsReflexive(a, d, eq);
  }

  /** With the identity as scalar comparison, Equals at the arrays'
      dimension is exactly equality of the arrays. */
  lemma {:induction false} EqualsIsEquality<T>(a: Nested<T>, b: Nested<T>, d: nat, eq: (T, T) -> bool)
    requires forall x, y :: eq(x, y) <==> x == y
    requires HasDim(a, d) && HasDim(b, d)
    ensures Equals(a, b, d, eq) <==> a == b
    decreases a
  {
    if d > 1 {
      if |a.kids| == |b.kids| {
        forall i | 0 <= i < |a.kids|
          ensures Equals(a.kids[i], b.kids[i], d - 1, eq) <==> a.kids[i] == b.kids[i]
        {
          EqualsIsEquality(a.kids[i], b.kids[i], d - 1, eq);
        }
        if Equals(a, b, d, eq) {
          assert a.kids == b.kids;
        }
      }
    } else {
      ElemsEqualIsEquality(a.items, b.items, eq);
    }
  }

  /** Whether some element of the outer array equals `val` at dimension
      d - 1. */
  function DimContains<T>(a: Nested<T>, val: Nested<T>, d: nat, eq: (T, T) -> bool): (r: bool)
    requires d >= 2 && a.Node?
    ensures r ==> exists i :: 0 <= i < |a.kids| && Length(a.kids[i]) == Length(val)
  {
    exists i :: 0 <= i < |a.kids| && Equals(a.kids[i], val, d - 1, eq)
  }

  /** With the identity as scalar comparison, DimContains is membership. */
  lemma DimContainsIsMembership<T>(a: Nested<T>, val: Nested<T>, d: nat, eq: (T, T) -> bool)
    requires forall x, y :: eq(x, y) <==> x == y
    requires d >= 2 && HasDim(a, d) && HasDim(val, d - 1)
    ensures DimContains(a, val, d, eq) <==> val in a.kids
  {
    forall i | 0 <= i < |a.kids| ensures Equals(a.kids[i], val, d - 1, eq) <==> a.kids[i] == val {
      EqualsIsEquality(a.kids[i], val, d - 1, eq);
    }
  }

  /** Removes the element at `idx`; the engine frees the removed array's
      storage first, which has no counterpart on values. */
  function DimRemoveAt<T>(a: Nested<T>, idx: nat): (r: Nested<T>)
    requires a.Node? && idx < |a.kids|
    ensures r.Node? && |r.kids| == |a.kids| - 1
    ensures forall i :: 0 <= i < |r.kids| ==> r.kids[i] == if i < idx then a.kids[i] else a.kids[i + 1]
  {
    Node(a.kids[..idx] + a.kids[idx + 1..])
  }

  /** Removes every element equal to `val` at dimension d - 1. */
  function DimRemove<T>(a: Nested<T>, val: Nested<T>, d: nat, eq: (T, T) -> bool): (r: Nested<T>)
    requires d >= 2 && a.Node?
    ensures r.Node? && |r.kids| <= |a.kids|
    ensures forall x :: x in r.kids ==> x in a.kids
  {
    FilterLength(a.kids, val, EqAt(d - 1, eq));
    FilterSubset(a.kids, val, EqAt(d - 1, eq));
    Node(Filter(a.kids, val, EqAt(d - 1, eq)))
  }

  /** After a removal nothing equal to `val` is left, the dimension is kept
      and the length drops by the number of equal elements. */
  lemma DimRemoveProperties<T>(a: Nested<T>, val: Nested<T>, d: nat, eq: (T, T) -> bool)
    requires d >= 2 && a.Node?
    ensures !DimContains(DimRemove(a, val, d, eq), val, d, eq)
    ensures |DimRemove(a, val, d, eq).kids| == |a.kids| - CountMatches(a.kids, val, EqAt(d - 1, eq))
    ensures HasDim(a, d) ==> HasDim(DimRemove(a, val, d, eq), d)
  {
    var e := EqAt(d - 1, eq);
    FilterNoMatch(a.kids, val, e);
    FilterLength(a.kids, val, e);
    FilterSubset(a.kids, val, e);
    var r := Filter(a.kids, val, e);
    assert forall i :: 0 <= i < |r| ==> !e(r[i], val);
    if HasDim(a, d) {
      forall i | 0 <= i < |r| ensures HasDim(r[i], d - 1) {
        assert r[i] in a.kids;
      }
    }
  }

  /** Replaces every element equal to `from` at dimension d - 1 by a deep
      copy of `to` (the engine frees the replaced array first). */
  function DimReplace<T>(a: Nested<T>, from: Nested<T>, to: Nested<T>, d: nat, eq: (T, T) -> bool): (r: Nested<T>)
    requires d >= 2 && a.Node?
    ensures r.Node? && |r.kids| == |a.kids|
  {
    ReplaceElemsAt(a.kids, from, Copy(to, d - 1), EqAt(d - 1, eq));
    Node(ReplaceElems(a.kids, from, Copy(to, d - 1), EqAt(d - 1, eq)))
  }

  /** Position by position, an element equal to `from` becomes `to` and
      every other element stays; the dimension is kept. */
  lemma DimReplaceAt<T>(a: Nested<T>, from: Nested<T>, to: Nested<T>, d: nat, eq: (T, T) -> bool)
    requires d >= 2 && a.Node?
    ensures |DimReplace(a, from, to, d, eq).kids| == |a.kids|
    ensures forall i :: 0 <= i < |a.kids| ==>
      DimReplace(a, from, to, d, eq).kids[i] == if Equals(a.kids[i], from, d - 1, eq) then to else a.kids[i]
    ensures HasDim(a, d) && HasDim(to, d - 1) ==> HasDim(DimReplace(a, from, to, d, eq), d)
  {
    CopyIsSame(to, d - 1);
    ReplaceElemsAt(a.kids, from, Copy(to, d - 1), EqAt(d - 1, eq));
  }

  /** Deep copies of a sequence of arrays. */
  function CopyAll<T>(s: seq<Nested<T>>, d: nat): (r: seq<Nested<T>>)
    ensures |r| == |s|
  {
    seq(|s|, i requires 0 <= i < |s| => Copy(s[i], d))
  }

  lemma CopyAllIsSame<T>(s: seq<Nested<T>>, d: nat)
    ensures CopyAll(s, d) == s
  {
    forall i | 0 <= i < |s| ensures CopyAll(s, d)[i] == s[i] {
      CopyIsSame(s[i], d);
    }
  }

  /** Splits the outer array on elements equal to `delim` at dimension
      d - 1. The result is an array of dimension d + 1 whose parts hold
      deep copies of the elements between delimiters. */
  function DimSplit<T>(a: Nested<T>, delim: Nested<T>, d: nat, eq: (T, T) -> bool): (r: Nested<T>)
    requires d >= 2 && a.Node?
    ensures r.Node? && |r.kids| >= 1
  {
    var ps := SplitElems(a.kids, delim, EqAt(d - 1, eq));
    Node(seq(|ps|, i requires 0 <= i < |ps| => Node(CopyAll(ps[i], d - 1))))
  }

  /** The parts of a split, as sequences of elements. */
  function PartsOf<T>(a: Nested<T>): seq<seq<Nested<T>>>
  {
    if a.Leaf? then []
    else seq(|a.kids|, i requires 0 <= i < |a.kids| => if a.kids[i].Node? then a.kids[i].kids else [])
  }

  /** A split has one more part than there are delimiters, no part holds an
      element equal to the delimiter, and with the identity as scalar
      comparison, joining the parts with the delimiter gives the outer
      array back. */
  lemma DimSplitProperties<T>(a: Nested<T>, delim: Nested<T>, d: nat, eq: (T, T) -> bool)
    requires d >= 2 && a.Node?
    ensures |PartsOf(DimSplit(a, delim, d, eq))| == CountMatches(a.kids, delim, EqAt(d - 1, eq)) + 1
    ensures AllPartsClean(PartsOf(DimSplit(a, delim, d, eq)), delim, EqAt(d - 1, eq))
    ensures (forall x, y :: eq(x, y) <==> x == y) && HasDim(a, d) && HasDim(delim, d - 1) ==>
      Join(PartsOf(DimSplit(a, delim, d, eq)), delim) == a.kids
  {
    var e := EqAt(d - 1, eq);
    var ps := SplitElems(a.kids, delim, e);
    forall i | 0 <= i < |ps| ensures CopyAll(ps[i], d - 1) == ps[i] {
      CopyAllIsSame(ps[i], d - 1);
    }
    assert PartsOf(DimSplit(a, delim, d, eq)) == ps;
    SplitElemsCount(a.kids, delim, e);
    SplitElemsClean(a.kids, delim, e);
    if (forall x, y :: eq(x, y) <==> x == y) && HasDim(a, d) && HasDim(delim, d - 1) {
      forall x | x in a.kids && e(x, delim) ensures x == delim {
        EqualsIsEquality(x, delim, d - 1, eq);
      }
      JoinSplitWithin(a.kids, delim, e);
    }
  }

  /** JoinSplit for a delimiter that only matches itself among the
      elements present. */
  lemma {:induction false} JoinSplitWithin<X>(s: seq<X>, d: X, e: (X, X) -> bool)
    requires forall x :: x in s && e(x, d) ==> x == d
    ensures Join(SplitElems(s, d, e), d) == s
  {
    var f := (x, y) => e(x, y) && x in s;
    assert forall x :: f(x, d) ==> x == d;
    SplitSameOnMembers(s, s, d, e, f);
    JoinSplit(s, d, f);
  }

  lemma {:induction false} SplitSameOnMembers<X>(s: seq<X>, all: seq<X>, d: X, e: (X, X) -> bool, f: (X, X) -> bool)
    requires forall x :: x in s ==> x in all
    requires forall x :: x in all ==> (e(x, d) <==> f(x, d))
    ensures SplitElems(s, d, e) == SplitElems(s, d, f)
  {
    if s != [] {
      assert Last(s) in s;
      SplitSameOnMembers(Init(s), all, d, e, f);
    }
  }

  /** A split of an array of dimension d has dimension d + 1. */
  lemma DimSplitHasDim<T>(a: Nested<T>, delim: Nested<T>, d: nat, eq: (T, T) -> bool)
    requires d >= 2 && HasDim(a, d)
    ensures HasDim(DimSplit(a, delim, d, eq), d + 1)
  {
    var e := EqAt(d - 1, eq);
    var ps := SplitElems(a.kids, delim, e);
    SplitMembers(a.kids, delim, e);
    forall i | 0 <= i < |ps| ensures HasDim(Node(CopyAll(ps[i], d - 1)), d) {
      CopyAllIsSame(ps[i], d - 1);
      forall j | 0 <= j < |ps[i]| ensures HasDim(ps[i][j], d - 1) {
        assert ps[i][j] in a.kids;
      }
    }
  }

  /** Every element of every part is an element of the input. */
  lemma {:induction false} SplitMembers<X>(s: seq<X>, d: X, e: (X, X) -> bool)
    ensures forall i, j :: 0 <= i < |SplitElems(s, d, e)| && 0 <= j < |SplitElems(s, d, e)[i]| ==>
      SplitElems(s, d, e)[i][j] in s
  {
    if s != [] {
      SplitMembers(Init(s), d, e);
      assert s == Init(s) + [Last(s)];
    }
  }
}
