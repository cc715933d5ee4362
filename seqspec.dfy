/** Sequence-level meaning of the array engine's operations.
    Every element comparison goes through a caller-supplied equality `eq`,
    called as `eq(element, value)`, the order the engine uses. The
    definitions peel the LAST element, as the engine's left-to-right loops
    extend their result at the end. */
module SeqSpec {

  function Last<T>(s: seq<T>): T
    requires |s| > 0
  {
    s[|s| - 1]
  }

  function Init<T>(s: seq<T>): seq<T>
    requires |s| > 0
  {
    s[..|s| - 1]
  }

  /** Same length, and `eq` holds position by position. */
  predicate ElemsEqual<T>(a: seq<T>, b: seq<T>, eq: (T, T) -> bool)
  {
    |a| == |b| && forall i :: 0 <= i < |a| ==> eq(a[i], b[i])
  }

  /** With `eq` the identity relation, ElemsEqual is sequence equality. */
  lemma ElemsEqualIsEquality<T>(a: seq<T>, b: seq<T>, eq: (T, T) -> bool)
    requires forall x, y :: eq(x, y) <==> x == y
    ensures ElemsEqual(a, b, eq) <==> a == b
  {
    if ElemsEqual(a, b, eq) {
      assert forall i :: 0 <= i < |a| ==> a[i] == b[i];
    }
  }

  /** Number of elements that match `v`. */
  function CountMatches<T>(s: seq<T>, v: T, eq: (T, T) -> bool): nat
  {
    if s == [] then 0
    else CountMatches(Init(s), v, eq) + (if eq(Last(s), v) then 1 else 0)
  }

  predicate NoMatch<T>(s: seq<T>, v: T, eq: (T, T) -> bool)
  {
    forall i :: 0 <= i < |s| ==> !eq(s[i], v)
  }

  /** The elements that do not match `v`, in their original order. */
  function Filter<T>(s: seq<T>, v: T, eq: (T, T) -> bool): seq<T>
  {
    if s == [] then []
    else Filter(Init(s), v, eq) + (if eq(Last(s), v) then [] else [Last(s)])
  }

  /** Nothing left by Filter matches `v`. */
  lemma {:induction false} FilterNoMatch<T>(s: seq<T>, v: T, eq: (T, T) -> bool)
    ensures NoMatch(Filter(s, v, eq), v, eq)
  {
    if s != [] {
      FilterNoMatch(Init(s), v, eq);
      var f := Filter(Init(s), v, eq);
      var tail: seq<T> := if eq(Last(s), v) then [] else [Last(s)];
      assert Filter(s, v, eq) == f + tail;
      forall i | 0 <= i < |f + tail| ensures !eq((f + tail)[i], v) {
        if i < |f| {
          assert (f + tail)[i] == f[i];
        } else {
          assert (f + tail)[i] == tail[0] == Last(s);
        }
      }
    }
  }

  /** Filter drops exactly as many elements as match `v`. */
  lemma {:induction false} FilterLength<T>(s: seq<T>, v: T, eq: (T, T) -> bool)
    ensures |Filter(s, v, eq)| == |s| - CountMatches(s, v, eq)
  {
    if s != [] {
      FilterLength(Init(s), v, eq);
    }
  }

  /** A sequence without matches is returned unchanged. */
  lemma {:induction false} FilterUnchanged<T>(s: seq<T>, v: T, eq: (T, T) -> bool)
    requires NoMatch(s, v, eq)
    ensures Filter(s, v, eq) == s
  {
    if s != [] {
      NoMatchInit(s, v, eq);
      FilterUnchanged(Init(s), v, eq);
      assert Filter(s, v, eq) == Init(s) + [Last(s)];
      InitLast(s);
    }
  }

  lemma NoMatchInit<T>(s: seq<T>, v: T, eq: (T, T) -> bool)
    requires |s| > 0 && NoMatch(s, v, eq)
    ensures NoMatch(Init(s), v, eq) && !eq(Last(s), v)
  {
    forall i | 0 <= i < |Init(s)| ensures !eq(Init(s)[i], v) {
      assert Init(s)[i] == s[i];
    }
  }

  lemma InitLast<T>(s: seq<T>)
    requires |s| > 0
    ensures Init(s) + [Last(s)] == s
  {
  }

  /** Filter only keeps elements of its input. */
  lemma {:induction false} FilterSubset<T>(s: seq<T>, v: T, eq: (T, T) -> bool)
    ensures forall x :: x in Filter(s, v, eq) ==> x in s
  {
    if s != [] {
      FilterSubset(Init(s), v, eq);
      assert s == Init(s) + [Last(s)];
    }
  }

  /** Filtering distributes over concatenation, so it keeps the survivors'
      relative order. */
  lemma {:induction false} FilterConcat<T>(a: seq<T>, b: seq<T>, v: T, eq: (T, T) -> bool)
    ensures Filter(a + b, v, eq) == Filter(a, v, eq) + Filter(b, v, eq)
    decreases |b|
  {
    if b == [] {
      assert a + b == a;
    } else {
      assert Init(a + b) == a + Init(b);
      assert Last(a + b) == Last(b);
      FilterConcat(a, Init(b), v, eq);
    }
  }

  /** `s` without the `k` elements at `at`. */
  function Deleted<T>(s: seq<T>, at: nat, k: nat): (r: seq<T>)
    requires at + k <= |s|
    ensures |r| == |s| - k
    ensures forall i :: 0 <= i < at ==> r[i] == s[i]
    ensures forall i :: at <= i < |r| ==> r[i] == s[i + k]
  {
    s[..at] + s[at + k..]
  }

  /** Deleting inside the front part of a sequence leaves the back part
      alone. */
  lemma DeleteInFront<T>(p: seq<T>, rest: seq<T>, at: nat, k: nat)
    requires at + k <= |p|
    ensures Deleted(p + rest, at, k) == Deleted(p, at, k) + rest
  {
    assert (p + rest)[..at] == p[..at];
    assert (p + rest)[at + k..] == p[at + k..] + rest;
  }

  lemma ConcatAssoc<T>(a: seq<T>, b: seq<T>, c: seq<T>)
    ensures a + (b + c) == (a + b) + c
  {
  }

  /** Deleting `k` elements at `at` and then one more at the same place
      deletes `k + 1` elements. */
  lemma DeletedAgain<T>(s: seq<T>, at: nat, k: nat)
    requires at + k + 1 <= |s|
    ensures Deleted(Deleted(s, at, k), at, 1) == Deleted(s, at, k + 1)
  {
  }

  /** One more element examined by Filter. */
  lemma FilterStep<T>(s: seq<T>, k: nat, v: T, eq: (T, T) -> bool)
    requires k < |s|
    ensures Filter(s[..k + 1], v, eq) == Filter(s[..k], v, eq) + (if eq(s[k], v) then [] else [s[k]])
  {
    assert Init(s[..k + 1]) == s[..k] && Last(s[..k + 1]) == s[k];
  }

  /** Deleting the element right after the prefix `a`. */
  lemma DeleteAfter<T>(a: seq<T>, s: seq<T>, k: nat)
    requires k < |s|
    ensures |a| + 1 <= |a + s[k..]|
    ensures Deleted(a + s[k..], |a|, 1) == a + s[k + 1..]
  {
    assert (a + s[k..])[..|a|] == a;
    assert (a + s[k..])[|a| + 1..] == s[k + 1..];
  }

  /** Moving the element right after the prefix `a` into it. */
  lemma MoveAfter<T>(a: seq<T>, s: seq<T>, k: nat)
    requires k < |s|
    ensures a + s[k..] == (a + [s[k]]) + s[k + 1..]
  {
    assert s[k..] == [s[k]] + s[k + 1..];
  }

  /** Every element matching `from` replaced by `to`. */
  function ReplaceElems<T>(s: seq<T>, from: T, to: T, eq: (T, T) -> bool): seq<T>
  {
    if s == [] then []
    else ReplaceElems(Init(s), from, to, eq) + [if eq(Last(s), from) then to else Last(s)]
  }

  /** Pointwise reading of ReplaceElems. */
  lemma {:induction false} ReplaceElemsAt<T>(s: seq<T>, from: T, to: T, eq: (T, T) -> bool)
    ensures |ReplaceElems(s, from, to, eq)| == |s|
    ensures forall i :: 0 <= i < |s| ==>
      ReplaceElems(s, from, to, eq)[i] == if eq(s[i], from) then to else s[i]
  {
    if s != [] {
      ReplaceElemsAt(Init(s), from, to, eq);
    }
  }

  /** The elements in the opposite order. */
  function Reversed<T>(s: seq<T>): seq<T>
  {
    if s == [] then [] else [Last(s)] + Reversed(Init(s))
  }

  lemma {:induction false} ReversedIndex<T>(s: seq<T>)
    ensures |Reversed(s)| == |s|
    ensures forall k :: 0 <= k < |s| ==> Reversed(s)[k] == s[|s| - 1 - k]
  {
    if s != [] {
      ReversedIndex(Init(s));
    }
  }

  /** Reversing twice gives the original sequence back. */
  lemma ReversedInvolution<T>(s: seq<T>)
    ensures Reversed(Reversed(s)) == s
  {
    ReversedIndex(s);
    ReversedIndex(Reversed(s));
  }

  /** The parts between delimiters: a new part starts after every element
      matching `d`; there is always at least one part. */
  function SplitElems<T>(s: seq<T>, d: T, eq: (T, T) -> bool): (parts: seq<seq<T>>)
    ensures |parts| >= 1
  {
    if s == [] then [[]]
    else
      var p := SplitElems(Init(s), d, eq);
      if eq(Last(s), d) then p + [[]]
      else Init(p) + [Last(p) + [Last(s)]]
  }

  /** The parts joined back together with `d` between consecutive parts. */
  function Join<T>(parts: seq<seq<T>>, d: T): seq<T>
  {
    if |parts| == 0 then []
    else if |parts| == 1 then parts[0]
    else Join(Init(parts), d) + [d] + Last(parts)
  }

  predicate AllPartsClean<T>(parts: seq<seq<T>>, d: T, eq: (T, T) -> bool)
  {
    forall i :: 0 <= i < |parts| ==> NoMatch(parts[i], d, eq)
  }

  /** With k matching elements there are k + 1 parts. */
  lemma {:induction false} SplitElemsCount<T>(s: seq<T>, d: T, eq: (T, T) -> bool)
    ensures |SplitElems(s, d, eq)| == CountMatches(s, d, eq) + 1
  {
    if s != [] {
      SplitElemsCount(Init(s), d, eq);
    }
  }

  /** No part holds an element matching the delimiter. */
  lemma {:induction false} SplitElemsClean<T>(s: seq<T>, d: T, eq: (T, T) -> bool)
    ensures AllPartsClean(SplitElems(s, d, eq), d, eq)
  {
    if s != [] {
      SplitElemsClean(Init(s), d, eq);
      var p := SplitElems(Init(s), d, eq);
      if eq(Last(s), d) {
        var q := p + [[]];
        forall i | 0 <= i < |q| ensures NoMatch(q[i], d, eq) {
          if i < |p| {
            assert q[i] == p[i];
          }
        }
      } else {
        var q := Init(p) + [Last(p) + [Last(s)]];
        assert NoMatch(Last(p), d, eq);
        NoMatchAppend(Last(p), Last(s), d, eq);
        forall i | 0 <= i < |q| ensures NoMatch(q[i], d, eq) {
          if i < |p| - 1 {
            assert q[i] == p[i];
          }
        }
      }
    }
  }

  lemma NoMatchAppend<T>(a: seq<T>, x: T, v: T, eq: (T, T) -> bool)
    requires NoMatch(a, v, eq) && !eq(x, v)
    ensures NoMatch(a + [x], v, eq)
  {
    forall i | 0 <= i < |a + [x]| ensures !eq((a + [x])[i], v) {
      if i < |a| {
        assert (a + [x])[i] == a[i];
      }
    }
  }

  lemma JoinAppendToLast<T>(parts: seq<seq<T>>, d: T, x: T)
    requires |parts| >= 1
    ensures Join(Init(parts) + [Last(parts) + [x]], d) == Join(parts, d) + [x]
  {
    var q := Init(parts) + [Last(parts) + [x]];
    assert Init(q) == Init(parts);
    if |parts| == 1 {
      assert q == [parts[0] + [x]];
    }
  }

  /** Splitting and joining with the delimiter gives the input back, when
      every element `eq` matches with the delimiter is the delimiter. */
  lemma {:induction false} JoinSplit<T>(s: seq<T>, d: T, eq: (T, T) -> bool)
    requires forall x :: eq(x, d) ==> x == d
    ensures Join(SplitElems(s, d, eq), d) == s
  {
    if s != [] {
      JoinSplit(Init(s), d, eq);
      var p := SplitElems(Init(s), d, eq);
      assert s == Init(s) + [Last(s)];
      if eq(Last(s), d) {
        var q := p + [[]];
        assert Init(q) == p && Last(q) == [];
        assert Join(q, d) == Join(p, d) + [d] + [];
        assert Last(s) == d;
      } else {
        JoinAppendToLast(p, d, Last(s));
      }
    }
  }

  lemma {:induction false} SplitAfterDelimiter<T>(a: seq<T>, d: T, tail: seq<T>, eq: (T, T) -> bool)
    requires eq(d, d) && NoMatch(tail, d, eq)
    ensures SplitElems(a + [d] + tail, d, eq) == SplitElems(a, d, eq) + [tail]
    decreases |tail|
  {
    if tail == [] {
      assert a + [d] + tail == a + [d];
    } else {
      var s := a + [d] + tail;
      assert Init(s) == a + [d] + Init(tail);
      assert Last(s) == Last(tail) && !eq(Last(tail), d);
      assert NoMatch(Init(tail), d, eq) by {
        forall i | 0 <= i < |Init(tail)| ensures !eq(Init(tail)[i], d) {
          assert Init(tail)[i] == tail[i];
        }
      }
      SplitAfterDelimiter(a, d, Init(tail), eq);
      var p := SplitElems(a, d, eq) + [Init(tail)];
      assert Init(p) == SplitElems(a, d, eq) && Last(p) == Init(tail);
      assert Init(tail) + [Last(tail)] == tail;
    }
  }

  lemma {:induction false} SplitClean<T>(tail: seq<T>, d: T, eq: (T, T) -> bool)
    requires NoMatch(tail, d, eq)
    ensures SplitElems(tail, d, eq) == [tail]
    decreases |tail|
  {
    if tail != [] {
      assert NoMatch(Init(tail), d, eq) by {
        forall i | 0 <= i < |Init(tail)| ensures !eq(Init(tail)[i], d) {
          assert Init(tail)[i] == tail[i];
        }
      }
      SplitClean(Init(tail), d, eq);
      assert !eq(Last(tail), d);
      assert Init(tail) + [Last(tail)] == tail;
    }
  }

  /** Conversely, joining parts free of the delimiter and splitting again
      gives the same parts. */
  lemma {:induction false} SplitJoin<T>(parts: seq<seq<T>>, d: T, eq: (T, T) -> bool)
    requires |parts| >= 1 && eq(d, d) && AllPartsClean(parts, d, eq)
    ensures SplitElems(Join(parts, d), d, eq) == parts
  {
    if |parts| == 1 {
      SplitClean(parts[0], d, eq);
    } else {
      SplitJoin(Init(parts), d, eq);
      SplitAfterDelimiter(Join(Init(parts), d), d, Last(parts), eq);
      assert parts == Init(parts) + [Last(parts)];
    }
  }
}
