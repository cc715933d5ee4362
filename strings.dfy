/** The string layer (NPK_string): a byte array whose last stored element
    is a NUL sentinel, so the logical length is one less than the array
    length. The operations that take a C string or search with strstr see
    the stored bytes only up to the first NUL (CView). */
module Strings {
  import opened Opt
  import opened Growth
  import opened SeqSpec
  import opened Buffers
  import opened Text

  /** A well-formed string: at least the sentinel, and the sentinel is NUL. */
  ghost predicate IsString(str: Buffer<byte>)
    reads str, str.data
  {
    str.Valid() && str.len >= 1 && str.data[str.len - 1] == 0
  }

  /** The logical content: the stored bytes before the sentinel. */
  function Chars(str: Buffer<byte>): (r: seq<byte>)
    reads str, str.data
    requires IsString(str)
    ensures str.Contents() == r + [0]
  {
    str.data[..str.len - 1]
  }

  /** An empty string with room for `maxlen` bytes, sentinel included. */
  method SizedNew(maxlen: nat) returns (str: Buffer<byte>)
    ensures fresh(str) && fresh(str.data) && IsString(str)
    ensures Chars(str) == []
    ensures str.Capacity() == CapacityAfterAdd(0, maxlen)
  {
    str := new Buffer(maxlen);
    str.Add(0);
  }

  /** Stores `c` over the sentinel and appends a new sentinel. */
  method Add(str: Buffer<byte>, c: byte)
    requires IsString(str)
    modifies str, str.data
    ensures IsString(str)
    ensures Chars(str) == old(Chars(str)) + [c]
    ensures str.Capacity() == CapacityAfterAdd(old(str.len), old(str.Capacity()))
    ensures str.data == old(str.data) || fresh(str.data)
  {
    str.data[str.len - 1] := c;
    str.Add(0);
  }

  /** Adds the bytes of `s` one by one. */
  method Append(str: Buffer<byte>, s: CString)
    requires IsString(str)
    modifies str, str.data
    ensures IsString(str)
    ensures Chars(str) == old(Chars(str)) + s
    ensures str.Capacity() == CapacityAfterAdds(old(str.len), old(str.Capacity()), |s|)
    ensures str.data == old(str.data) || fresh(str.data)
  {
    for i := 0 to |s|
      invariant IsString(str)
      invariant Chars(str) == old(Chars(str)) + s[..i]
      invariant str.len == old(str.len) + i
      invariant str.Capacity() == CapacityAfterAdds(old(str.len), old(str.Capacity()), i)
      invariant str.data == old(str.data) || fresh(str.data)
    {
      Add(str, s[i]);
      assert s[..i + 1] == s[..i] + [s[i]];
    }
    assert s[..|s|] == s;
  }

  /** A string holding exactly `s`; the empty string gets two slots,
      any other string exactly the slots its bytes and sentinel need. */
  method NewString(s: CString) returns (str: Buffer<byte>)
    ensures fresh(str) && fresh(str.data) && IsString(str)
    ensures Chars(str) == s
    ensures str.Capacity() == if s == [] then 2 else |s| + 1
  {
    if s == [] {
      str := SizedNew(2);
    } else {
      str := SizedNew(|s| + 1);
      Append(str, s);
      CapacityAfterAddsBounds(1, |s| + 1, |s|);
    }
  }

  /** Number of bytes before the sentinel. */
  function Length(str: Buffer<byte>): (n: nat)
    reads str, str.data
    requires IsString(str)
    ensures n == |Chars(str)| && n + 1 == str.len
  {
    str.len - 1
  }

  function IsEmpty(str: Buffer<byte>): (r: bool)
    reads str, str.data
    requires IsString(str)
    ensures r <==> Chars(str) == []
  {
    Length(str) == 0
  }

  /** strcmp of the stored bytes with `s` is 0: the bytes up to the first
      NUL are exactly `s`. */
  function Equals(str: Buffer<byte>, s: CString): (r: bool)
    reads str, str.data
    requires IsString(str)
    ensures r <==> CView(Chars(str)) == s
    ensures NoNul(Chars(str)) ==> (r <==> Chars(str) == s)
  {
    CViewExtend(Chars(str), [0]);
    assert NoNul(Chars(str)) ==> CView(Chars(str)) == Chars(str) by {
      if NoNul(Chars(str)) {
        CViewOfPrefix(Chars(str), []);
        assert Chars(str) + [] == Chars(str);
      }
    }
    CView(str.data[..str.len]) == s
  }

  /** strstr of `s` in the stored bytes succeeds. */
  function Contains(str: Buffer<byte>, s: CString): (r: bool)
    reads str, str.data
    requires IsString(str)
    ensures r <==> Occurs(CView(Chars(str)), s)
  {
    CViewExtend(Chars(str), [0]);
    var h := CView(str.data[..str.len]);
    FindFirstSpec(h, s, 0);
    var found := FindFirst(h, s, 0);
    assert found.Some? ==> found.value <= |h|;
    found.Some?
  }

  /** strncmp over `strlen(s)` bytes: `s` is a prefix of the visible bytes. */
  function Starts(str: Buffer<byte>, s: CString): (r: bool)
    reads str, str.data
    requires IsString(str)
    ensures r <==> s <= CView(Chars(str))
  {
    CViewExtend(Chars(str), [0]);
    StrNEqualIsPrefix(CView(Chars(str)), s);
    StrNEqual(CView(str.data[..str.len]), s, |s|)
  }

  /** strcmp of the last `strlen(s)` stored bytes with `s`. The comparison
      starts `strlen(s)` bytes before the sentinel, so `s` must not be
      longer than the string. */
  function Ends(str: Buffer<byte>, s: CString): (r: bool)
    reads str, str.data
    requires IsString(str) && |s| <= Length(str)
    ensures r <==> Chars(str)[Length(str) - |s|..] == s
  {
    var tail := Chars(str)[Length(str) - |s|..];
    assert str.data[Length(str) - |s|..str.len] == tail + [0];
    CViewSameLength(tail, s);
    CView(str.data[Length(str) - |s|..str.len]) == s
  }

  /** Removes the byte at `idx`; the sentinel stays last. */
  method RemoveAt(str: Buffer<byte>, idx: nat)
    requires IsString(str) && idx < Length(str)
    modifies str`len, str.data
    ensures IsString(str) && str.data == old(str.data)
    ensures Chars(str) == Deleted(old(Chars(str)), idx, 1)
  {
    ghost var s := Chars(str);
    DeleteInFront(s, [0], idx, 1);
    str.RemoveAt(idx);
  }

  /** The bytes the C string functions see in `str`: those before the
      first NUL, which is the sentinel when the string holds no NUL. */
  method Visible(str: Buffer<byte>) returns (h: CString)
    requires IsString(str)
    ensures IsViewOf(Chars(str), h)
  {
    CViewExtend(Chars(str), [0]);
    ViewIsCView(Chars(str), CView(Chars(str)));
    h := CView(str.data[..str.len]);
  }

  /** The scan of a split over the visible bytes `h`: strstr finds the
      next delimiter from `begin`, the bytes before it form a part, and the
      search resumes after the delimiter; what remains is the last part. */
  method SplitText(h: seq<byte>, delim: seq<byte>) returns (parts: seq<seq<byte>>)
    requires |delim| > 0
    ensures parts == SplitFrom(h, delim, 0)
  {
    ghost var total := SplitFrom(h, delim, 0);
    parts := [];
    var begin := 0;
    var end := FindFirst(h, delim, 0);
    assert [] + SplitFrom(h, delim, 0) == total;
    while end.Some?
      invariant begin <= |h| && end == FindFirst(h, delim, begin)
      invariant parts + SplitFrom(h, delim, begin) == total
      decreases |h| - begin
    {
      var e := end.value;
      SplitFromStep(parts, h, delim, begin, e);
      parts := parts + [h[begin..e]];
      begin := e + |delim|;
      end := FindFirst(h, delim, begin);
    }
    parts := parts + [h[begin..]];
  }

  /** The parts of the visible bytes between non-overlapping occurrences
      of `delim`, found left to right. */
  method Split(str: Buffer<byte>, delim: CString) returns (parts: seq<seq<byte>>)
    requires IsString(str) && |delim| > 0
    ensures parts == SplitFrom(CView(Chars(str)), delim, 0)
  {
    var h := Visible(str);
    parts := SplitText(h, delim);
    ViewIsCView(Chars(str), h);
  }

  /** The scan of a replacement over the visible bytes `h`: the bytes
      before each occurrence of `from`, then `to`, and finally the bytes
      after the last occurrence. */
  method ReplaceText(h: seq<byte>, from: seq<byte>, to: seq<byte>) returns (r: seq<byte>)
    requires |from| > 0
    ensures r == ReplaceFrom(h, from, to, 0)
  {
    ghost var total := ReplaceFrom(h, from, to, 0);
    var acc: seq<byte> := [];
    var begin := 0;
    var end := FindFirst(h, from, 0);
    assert [] + ReplaceFrom(h, from, to, 0) == total;
    while end.Some?
      invariant begin <= |h| && end == FindFirst(h, from, begin)
      invariant acc + ReplaceFrom(h, from, to, begin) == total
      decreases |h| - begin
    {
      var e := end.value;
      ReplaceFromStep(acc, h, from, to, begin, e);
      acc := acc + h[begin..e] + to;
      begin := e + |from|;
      end := FindFirst(h, from, begin);
    }
    ReplaceFromLast(acc, h, from, to, begin);
    r := acc + h[begin..];
  }

  /** Builds a new string with every non-overlapping occurrence of `from`
      in the visible bytes, found left to right, replaced by `to`, and
      makes `str` that string. The new string starts empty with two slots
      and receives the result byte by byte. */
  method Replace(str: Buffer<byte>, from: CString, to: CString)
    requires IsString(str) && |from| > 0
    modifies str
    ensures IsString(str) && fresh(str.data)
    ensures Chars(str) == ReplaceFrom(CView(old(Chars(str))), from, to, 0)
    ensures str.Capacity() == CapacityAfterAdds(1, 2, Length(str))
  {
    var h := Visible(str);
    ViewIsCView(Chars(str), h);
    var text := ReplaceText(h, from, to);
    ReplaceFromNoNul(h, from, to, 0);
    var r: CString := text;
    var nstr := NewString([]);
    Append(nstr, r);
    str.data, str.len := nstr.data, nstr.len;
  }

  /** Removes `count` bytes at `at`, one remove-at after another at the
      same position. */
  method DeleteRange(str: Buffer<byte>, at: nat, count: nat)
    requires IsString(str) && at + count <= Length(str)
    modifies str`len, str.data
    ensures IsString(str) && str.data == old(str.data)
    ensures Chars(str) == Deleted(old(Chars(str)), at, count)
  {
    ghost var s := Chars(str);
    for i := 0 to count
      invariant IsString(str) && str.data == old(str.data)
      invariant Chars(str) == Deleted(s, at, i)
    {
      DeletedAgain(s, at, i);
      RemoveAt(str, at);
    }
  }

  /** Deletes the first occurrence of `s` and searches again from the
      start, until the visible bytes hold no occurrence. Bytes after an
      embedded NUL are never searched and stay as they are. */
  method Remove(str: Buffer<byte>, s: CString)
    requires IsString(str) && |s| > 0
    modifies str`len, str.data
    ensures IsString(str) && str.data == old(str.data)
    ensures Chars(str) == StripAll(CView(old(Chars(str))), s) + old(Chars(str)[|CView(Chars(str))|..])
    ensures !Occurs(CView(Chars(str)), s)
  {
    var h := Visible(str);
    ghost var view, rest := h, Chars(str)[|h|..];
    ghost var p := h;
    ghost var goal := StripAll(view, s);
    assert Chars(str) == p + rest;
    var pos := FindFirst(h, s, 0);
    while pos.Some?
      invariant IsString(str) && str.data == old(str.data)
      invariant NoNul(p) && Chars(str) == p + rest && (rest == [] || rest[0] == 0)
      invariant StripAll(p, s) == goal
      invariant pos == FindFirst(p, s, 0)
      decreases |p|
    {
      var at := pos.value;
      StripAllStep(p, s, at);
      DeleteKeepsNoNul(p, at, |s|);
      DeleteInFront(p, rest, at, |s|);
      DeleteRange(str, at, |s|);
      p := Deleted(p, at, |s|);
      h := Visible(str);
      ViewOfPrefix(p, rest, h);
      pos := FindFirst(h, s, 0);
    }
    assert StripAll(p, s) == p;
    ViewIsCView(old(Chars(str)), view);
    ViewIsCView(Chars(str), p);
  }

  /** Lowers every upper-case ASCII letter before the sentinel. */
  method ToLower(str: Buffer<byte>)
    requires IsString(str)
    modifies str.data
    ensures IsString(str)
    ensures Chars(str) == LowerAll(old(Chars(str)))
  {
    ghost var s := Chars(str);
    for i := 0 to str.len - 1
      invariant IsString(str)
      invariant forall k :: 0 <= k < i ==> str.data[k] == Lower(s[k])
      invariant forall k :: i <= k < str.len - 1 ==> str.data[k] == s[k]
    {
      if 'A' as byte <= str.data[i] <= 'Z' as byte {
        str.data[i] := str.data[i] + 0x20;
      }
    }
  }

  /** Raises every lower-case ASCII letter before the sentinel. */
  method ToUpper(str: Buffer<byte>)
    requires IsString(str)
    modifies str.data
    ensures IsString(str)
    ensures Chars(str) == UpperAll(old(Chars(str)))
  {
    ghost var s := Chars(str);
    for i := 0 to str.len - 1
      invariant IsString(str)
      invariant forall k :: 0 <= k < i ==> str.data[k] == Upper(s[k])
      invariant forall k :: i <= k < str.len - 1 ==> str.data[k] == s[k]
    {
      if 'a' as byte <= str.data[i] <= 'z' as byte {
        str.data[i] := str.data[i] - 0x20;
      }
    }
  }

  /** Reverses the bytes before the sentinel. */
  method Reverse(str: Buffer<byte>)
    requires IsString(str)
    modifies str.data
    ensures IsString(str)
    ensures Chars(str) == Reversed(old(Chars(str)))
  {
    ghost var s := Chars(str);
    str.Reverse(str.len - 1);
    assert str.Contents() == Reversed(s) + [0];
  }
}
