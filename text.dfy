/** Byte strings as the C library functions the string layer relies on
    (strlen, strstr, strcmp, strncmp) see them, and the sequence-level
    meaning of the string operations built on strstr. */
module Text {
  import opened Opt
  import opened SeqSpec

  newtype byte = x: int | 0 <= x < 256

  predicate NoNul(s: seq<byte>)
  {
    forall i :: 0 <= i < |s| ==> s[i] != 0
  }

  /** A C string argument: its bytes up to, not including, the NUL. */
  type CString = s: seq<byte> | NoNul(s) witness []

  /** What a C string function sees of stored bytes: everything before the
      first NUL. */
  function CView(s: seq<byte>): (r: seq<byte>)
    ensures NoNul(r) && |r| <= |s| && r == s[..|r|]
    ensures |r| < |s| ==> s[|r|] == 0
  {
    if s == [] then []
    else if s[0] == 0 then []
    else [s[0]] + CView(s[1..])
  }

  /** Bytes without a NUL, followed by nothing or by a NUL, are seen whole. */
  lemma {:induction false} CViewOfPrefix(p: seq<byte>, rest: seq<byte>)
    requires NoNul(p) && (rest == [] || rest[0] == 0)
    ensures CView(p + rest) == p
  {
    if p != [] {
      assert (p + rest)[1..] == p[1..] + rest;
      CViewOfPrefix(p[1..], rest);
    } else {
      assert p + rest == rest;
    }
  }

  /** Bytes after a NUL are never seen. */
  lemma {:induction false} CViewExtend(s: seq<byte>, t: seq<byte>)
    requires t == [] || t[0] == 0
    ensures CView(s + t) == CView(s)
  {
    if s == [] {
      assert s + t == t;
    } else if s[0] != 0 {
      assert (s + t)[1..] == s[1..] + t;
      CViewExtend(s[1..], t);
    }
  }

  /** A C string compared with a NUL-free text of the same length is equal
      to it exactly when the stored bytes are. */
  lemma CViewSameLength(t: seq<byte>, s: seq<byte>)
    requires NoNul(s) && |t| == |s|
    ensures CView(t + [0]) == s <==> t == s
  {
    CViewExtend(t, [0]);
    if t == s {
      CViewOfPrefix(s, []);
      assert s + [] == s;
    }
  }

  /** `v` is what a C string function sees of `s`: a NUL-free prefix of
      `s` followed by a NUL or by nothing. */
  predicate IsViewOf(s: seq<byte>, v: seq<byte>)
  {
    NoNul(v) && |v| <= |s| && v == s[..|v|] && (|v| < |s| ==> s[|v|] == 0)
  }

  /** That description singles out CView. */
  lemma ViewIsCView(s: seq<byte>, v: seq<byte>)
    ensures IsViewOf(s, v) <==> v == CView(s)
  {
    if IsViewOf(s, v) {
      assert s == v + s[|v|..];
      CViewOfPrefix(v, s[|v|..]);
    }
  }

  /** A NUL-free prefix followed by a NUL or by nothing is the view. */
  lemma ViewOfPrefix(p: seq<byte>, rest: seq<byte>, v: seq<byte>)
    requires NoNul(p) && (rest == [] || rest[0] == 0) && IsViewOf(p + rest, v)
    ensures v == p
  {
    ViewIsCView(p + rest, v);
    CViewOfPrefix(p, rest);
  }

  /** strncmp(a, b, n) == 0 on the arrays whose visible bytes are `a` and
      `b`: the first `n` positions agree, where the end of either string
      reads as its NUL and a shared NUL ends the comparison. */
  function StrNEqual(a: seq<byte>, b: seq<byte>, n: nat): bool
  {
    if n == 0 then true
    else if a == [] || b == [] then a == b
    else a[0] == b[0] && StrNEqual(a[1..], b[1..], n - 1)
  }

  /** Comparing `strlen(b)` bytes tests whether `b` is a prefix of `a`. */
  lemma {:induction false} StrNEqualIsPrefix(a: seq<byte>, b: seq<byte>)
    requires NoNul(a) && NoNul(b)
    ensures StrNEqual(a, b, |b|) <==> b <= a
  {
    if b != [] && a != [] {
      StrNEqualIsPrefix(a[1..], b[1..]);
      assert b == [b[0]] + b[1..] && a == [a[0]] + a[1..];
    }
  }

  /** `n` occurs in `h` starting at position `p`. */
  predicate OccursAt(h: seq<byte>, n: seq<byte>, p: nat)
  {
    p + |n| <= |h| && h[p..p + |n|] == n
  }

  predicate Occurs(h: seq<byte>, n: seq<byte>)
  {
    exists p: nat :: p <= |h| && OccursAt(h, n, p)
  }

  /** strstr started at `from`: the first occurrence of `n` at or after
      `from`, or None when there is none. An empty `n` is found at `from`. */
  function FindFirst(h: seq<byte>, n: seq<byte>, from: nat): (r: Option<nat>)
    ensures r.Some? ==> from <= r.value && r.value + |n| <= |h|
    decreases |h| - from
  {
    if from + |n| > |h| then None
    else if OccursAt(h, n, from) then Some(from)
    else FindFirst(h, n, from + 1)
  }

  /** FindFirst finds an occurrence, no earlier one at or after `from`
      exists, and None means there is no occurrence at or after `from`. */
  lemma {:induction false} FindFirstSpec(h: seq<byte>, n: seq<byte>, from: nat)
    ensures FindFirst(h, n, from).Some? ==> OccursAt(h, n, FindFirst(h, n, from).value)
    ensures FindFirst(h, n, from).Some? ==>
      forall q: nat :: from <= q < FindFirst(h, n, from).value ==> !OccursAt(h, n, q)
    ensures FindFirst(h, n, from).None? ==> forall q: nat :: from <= q ==> !OccursAt(h, n, q)
    decreases |h| - from
  {
    if from + |n| <= |h| && !OccursAt(h, n, from) {
      FindFirstSpec(h, n, from + 1);
    }
  }

  lemma OccursInSlice(h: seq<byte>, n: seq<byte>, b: nat, e: nat, q: nat)
    requires b <= e <= |h| && OccursAt(h[b..e], n, q)
    ensures OccursAt(h, n, b + q) && b + q + |n| <= e
  {
    assert |h[b..e]| == e - b;
    var x, y := h[b..e][q..q + |n|], h[b + q..b + q + |n|];
    assert x == y by {
      forall i | 0 <= i < |n| ensures x[i] == y[i] {
        assert x[i] == h[b..e][q + i] == h[b + q + i];
      }
    }
  }

  /** The parts of `h[b..]` between non-overlapping occurrences of `d`,
      found left to right. */
  function SplitFrom(h: seq<byte>, d: seq<byte>, b: nat): (parts: seq<seq<byte>>)
    requires |d| > 0 && b <= |h|
    ensures |parts| >= 1
    decreases |h| - b
  {
    match FindFirst(h, d, b)
    case None => [h[b..]]
    case Some(e) => [h[b..e]] + SplitFrom(h, d, e + |d|)
  }

  /** One step of a split: the part up to the next delimiter, then the
      parts after it. */
  lemma SplitFromStep(done: seq<seq<byte>>, h: seq<byte>, d: seq<byte>, b: nat, e: nat)
    requires |d| > 0 && b <= |h| && FindFirst(h, d, b) == Some(e)
    ensures e + |d| <= |h|
    ensures done + SplitFrom(h, d, b) == (done + [h[b..e]]) + SplitFrom(h, d, e + |d|)
  {
    SplitFromUnfold(h, d, b, e);
    ConcatAssoc(done, [h[b..e]], SplitFrom(h, d, e + |d|));
  }

  lemma SplitFromUnfold(h: seq<byte>, d: seq<byte>, b: nat, e: nat)
    requires |d| > 0 && b <= |h| && FindFirst(h, d, b) == Some(e)
    ensures e + |d| <= |h|
    ensures SplitFrom(h, d, b) == [h[b..e]] + SplitFrom(h, d, e + |d|)
  {
  }

  /** The parts with `sep` between consecutive parts. */
  function JoinWith(parts: seq<seq<byte>>, sep: seq<byte>): seq<byte>
  {
    if |parts| == 0 then []
    else if |parts| == 1 then parts[0]
    else parts[0] + sep + JoinWith(parts[1..], sep)
  }

  /** Joining the parts of a split with the delimiter gives the input back;
      no part contains the delimiter. */
  lemma {:induction false} SplitFromProperties(h: seq<byte>, d: seq<byte>, b: nat)
    requires |d| > 0 && b <= |h|
    ensures JoinWith(SplitFrom(h, d, b), d) == h[b..]
    ensures forall i :: 0 <= i < |SplitFrom(h, d, b)| ==> !Occurs(SplitFrom(h, d, b)[i], d)
    decreases |h| - b
  {
    var parts := SplitFrom(h, d, b);
    FindFirstSpec(h, d, b);
    match FindFirst(h, d, b)
    case None =>
      assert h[b..] == h[b..|h|];
      forall q: nat | OccursAt(h[b..], d, q) ensures false {
        OccursInSlice(h, d, b, |h|, q);
      }
    case Some(e) =>
      SplitFromProperties(h, d, e + |d|);
      assert parts[1..] == SplitFrom(h, d, e + |d|);
      assert h[b..] == h[b..e] + d + h[e + |d|..];
      forall q: nat | OccursAt(h[b..e], d, q) ensures false {
        OccursInSlice(h, d, b, e, q);
      }
      forall i | 0 <= i < |parts| ensures !Occurs(parts[i], d) {
        if i > 0 {
          assert parts[i] == SplitFrom(h, d, e + |d|)[i - 1];
        }
      }
  }

  /** `h[b..]` with every non-overlapping occurrence of `f`, found left to
      right, replaced by `t`. */
  function ReplaceFrom(h: seq<byte>, f: seq<byte>, t: seq<byte>, b: nat): seq<byte>
    requires |f| > 0 && b <= |h|
    decreases |h| - b
  {
    match FindFirst(h, f, b)
    case None => h[b..]
    case Some(e) => h[b..e] + t + ReplaceFrom(h, f, t, e + |f|)
  }

  /** One step of a replacement, as SplitFromStep. */
  lemma ReplaceFromStep(done: seq<byte>, h: seq<byte>, f: seq<byte>, t: seq<byte>, b: nat, e: nat)
    requires |f| > 0 && b <= |h| && FindFirst(h, f, b) == Some(e)
    ensures e + |f| <= |h|
    ensures done + ReplaceFrom(h, f, t, b) == (done + h[b..e] + t) + ReplaceFrom(h, f, t, e + |f|)
  {
    ReplaceFromUnfold(h, f, t, b, e);
    ConcatAssoc(done, h[b..e] + t, ReplaceFrom(h, f, t, e + |f|));
  }

  lemma ReplaceFromUnfold(h: seq<byte>, f: seq<byte>, t: seq<byte>, b: nat, e: nat)
    requires |f| > 0 && b <= |h| && FindFirst(h, f, b) == Some(e)
    ensures e + |f| <= |h|
    ensures ReplaceFrom(h, f, t, b) == h[b..e] + t + ReplaceFrom(h, f, t, e + |f|)
  {
  }

  /** The last step of a replacement: no occurrence is left, the rest is
      copied. */
  lemma ReplaceFromLast(done: seq<byte>, h: seq<byte>, f: seq<byte>, t: seq<byte>, b: nat)
    requires |f| > 0 && b <= |h| && FindFirst(h, f, b) == None
    ensures done + ReplaceFrom(h, f, t, b) == done + h[b..]
  {
  }

  /** A slice of a NUL-free text, a NUL-free pattern and a NUL-free rest
      make a NUL-free text. */
  lemma NoNulPieces(h: seq<byte>, b: nat, e: nat, t: seq<byte>, r: seq<byte>)
    requires b <= e <= |h| && NoNul(h) && NoNul(t) && NoNul(r)
    ensures NoNul(h[b..e] + t + r)
  {
    var x := h[b..e] + t + r;
    forall i | 0 <= i < |x| ensures x[i] != 0 {
      if i < e - b {
        assert x[i] == h[b + i];
      } else if i < e - b + |t| {
        assert x[i] == t[i - (e - b)];
      } else {
        assert x[i] == r[i - (e - b) - |t|];
      }
    }
  }

  /** Replacing inside a NUL-free text with a NUL-free pattern gives a
      NUL-free text. */
  lemma {:induction false} ReplaceFromNoNul(h: seq<byte>, f: seq<byte>, t: seq<byte>, b: nat)
    requires |f| > 0 && b <= |h| && NoNul(h) && NoNul(t)
    ensures NoNul(ReplaceFrom(h, f, t, b))
    decreases |h| - b
  {
    match FindFirst(h, f, b)
    case None =>
    case Some(e) =>
      ReplaceFromUnfold(h, f, t, b, e);
      ReplaceFromNoNul(h, f, t, e + |f|);
      NoNulPieces(h, b, e, t, ReplaceFrom(h, f, t, e + |f|));
  }

  /** Replacing is splitting on `f` and joining with `t`. */
  lemma {:induction false} ReplaceIsSplitJoin(h: seq<byte>, f: seq<byte>, t: seq<byte>, b: nat)
    requires |f| > 0 && b <= |h|
    ensures ReplaceFrom(h, f, t, b) == JoinWith(SplitFrom(h, f, b), t)
    decreases |h| - b
  {
    match FindFirst(h, f, b)
    case None =>
    case Some(e) =>
      ReplaceIsSplitJoin(h, f, t, e + |f|);
      var parts := SplitFrom(h, f, b);
      assert parts[1..] == SplitFrom(h, f, e + |f|);
  }

  /** Replacing a pattern by itself changes nothing; without an occurrence
      nothing changes either. */
  lemma ReplaceIdentities(h: seq<byte>, f: seq<byte>, t: seq<byte>)
    requires |f| > 0
    ensures ReplaceFrom(h, f, f, 0) == h
    ensures !Occurs(h, f) ==> ReplaceFrom(h, f, t, 0) == h
  {
    ReplaceIsSplitJoin(h, f, f, 0);
    SplitFromProperties(h, f, 0);
    FindFirstSpec(h, f, 0);
    if FindFirst(h, f, 0).Some? {
      var e := FindFirst(h, f, 0).value;
      assert e <= |h| && OccursAt(h, f, e);
    } else {
      assert h[0..] == h;
    }
  }

  lemma DeleteKeepsNoNul(h: seq<byte>, p: nat, k: nat)
    requires p + k <= |h| && NoNul(h)
    ensures NoNul(Deleted(h, p, k))
  {
  }

  /** Deletes the first occurrence of `n` and searches again from the
      start, until no occurrence is left. A deletion can bring a new
      occurrence together, which the next search finds. */
  function StripAll(h: seq<byte>, n: seq<byte>): (r: seq<byte>)
    requires |n| > 0
    ensures !Occurs(r, n)
    ensures |r| <= |h|
    ensures !Occurs(h, n) ==> r == h
    ensures NoNul(h) ==> NoNul(r)
    decreases |h|
  {
    FindFirstSpec(h, n, 0);
    match FindFirst(h, n, 0)
    case None => h
    case Some(p) =>
      assert OccursAt(h, n, p);
      assert NoNul(h) ==> NoNul(Deleted(h, p, |n|)) by {
        if NoNul(h) {
          DeleteKeepsNoNul(h, p, |n|);
        }
      }
      StripAll(Deleted(h, p, |n|), n)
  }

  /** One step of StripAll: deleting the first occurrence does not change
      the final result. */
  lemma StripAllStep(p: seq<byte>, n: seq<byte>, at: nat)
    requires |n| > 0 && FindFirst(p, n, 0) == Some(at)
    ensures at + |n| <= |p| && StripAll(Deleted(p, at, |n|), n) == StripAll(p, n)
  {
  }

  /** The byte values of the characters used in the examples below. */
  const A: byte := 97
  const B: byte := 98
  const C: byte := 99
  const Comma: byte := 44

  /** "abcabc" with every "bc" removed is "aa". */
  lemma StripAllExample()
    ensures StripAll([A, B, C, A, B, C], [B, C]) == [A, A]
  {
    var h := [A, B, C, A, B, C];
    assert h[1..3] == [B, C];
    assert FindFirst(h, [B, C], 1) == Some(1);
    assert h[0..2][0] == A;
    assert FindFirst(h, [B, C], 0) == Some(1);
    var h1 := [A, A, B, C];
    assert h[..1] + h[3..] == h1;
    assert h1[2..4] == [B, C];
    assert FindFirst(h1, [B, C], 2) == Some(2);
    assert h1[1..3][0] == A;
    assert FindFirst(h1, [B, C], 1) == Some(2);
    assert h1[0..2][0] == A;
    assert FindFirst(h1, [B, C], 0) == Some(2);
    assert h1[..2] + h1[4..] == [A, A];
    assert FindFirst([A, A], [B, C], 0) == None;
  }

  /** "a,,b" split on "," is "a", "", "b". */
  lemma SplitExample()
    ensures SplitFrom([A, Comma, Comma, B], [Comma], 0) == [[A], [], [B]]
  {
    var h := [A, Comma, Comma, B];
    assert h[1..2] == [Comma] && h[2..3] == [Comma];
    assert FindFirst(h, [Comma], 1) == Some(1);
    assert h[0..1][0] == A;
    assert FindFirst(h, [Comma], 0) == Some(1);
    assert FindFirst(h, [Comma], 2) == Some(2);
    assert h[3..4][0] == B;
    assert FindFirst(h, [Comma], 4) == None;
    assert FindFirst(h, [Comma], 3) == None;
    assert h[0..1] == [A] && h[2..2] == [] && h[3..] == [B];
    assert SplitFrom(h, [Comma], 3) == [[B]];
    assert SplitFrom(h, [Comma], 2) == [[]] + [[B]];
    assert SplitFrom(h, [Comma], 0) == [[A]] + [[], [B]];
  }

  /** ASCII case mapping by a fixed offset of 0x20. */
  function Lower(c: byte): byte
  {
    if 'A' as byte <= c <= 'Z' as byte then c + 0x20 else c
  }

  function Upper(c: byte): byte
  {
    if 'a' as byte <= c <= 'z' as byte then c - 0x20 else c
  }

  function LowerAll(s: seq<byte>): (r: seq<byte>)
    ensures |r| == |s|
  {
    seq(|s|, i requires 0 <= i < |s| => Lower(s[i]))
  }

  function UpperAll(s: seq<byte>): (r: seq<byte>)
    ensures |r| == |s|
  {
    seq(|s|, i requires 0 <= i < |s| => Upper(s[i]))
  }

  predicate IsUpperAt(s: seq<byte>, i: nat)
    requires i < |s|
  {
    'A' as byte <= s[i] <= 'Z' as byte
  }

  predicate IsLowerAt(s: seq<byte>, i: nat)
    requires i < |s|
  {
    'a' as byte <= s[i] <= 'z' as byte
  }

  /** Lowering leaves no upper-case letter, maps every upper-case letter
      to its lower-case partner, leaves all other bytes alone and is
      idempotent; lowering after raising is plain lowering. */
  lemma LowerAllProperties(s: seq<byte>)
    ensures forall i :: 0 <= i < |s| ==> !IsUpperAt(LowerAll(s), i)
    ensures forall i :: 0 <= i < |s| && IsUpperAt(s, i) ==> IsLowerAt(LowerAll(s), i) && LowerAll(s)[i] == s[i] + 0x20
    ensures forall i :: 0 <= i < |s| && !IsUpperAt(s, i) ==> LowerAll(s)[i] == s[i]
    ensures LowerAll(LowerAll(s)) == LowerAll(s)
    ensures LowerAll(UpperAll(s)) == LowerAll(s)
  {
  }

  /** The same for raising. */
  lemma UpperAllProperties(s: seq<byte>)
    ensures forall i :: 0 <= i < |s| ==> !IsLowerAt(UpperAll(s), i)
    ensures forall i :: 0 <= i < |s| && IsLowerAt(s, i) ==> IsUpperAt(UpperAll(s), i) && UpperAll(s)[i] == s[i] - 0x20
    ensures forall i :: 0 <= i < |s| && !IsLowerAt(s, i) ==> UpperAll(s)[i] == s[i]
    ensures UpperAll(UpperAll(s)) == UpperAll(s)
    ensures UpperAll(LowerAll(s)) == UpperAll(s)
  {
  }
}
