/** The growable array engine (NPK_array) at dimension 1. The element
    size of the original becomes the type parameter T; the caller's
    equality callback becomes the function parameter `eq`. */
module Buffers {
  import opened Growth
  import opened SeqSpec

  /** `a` holds the first `n` elements of `s` in the opposite order and the
      rest of `s` unchanged. */
  lemma ReversedPrefix<T>(a: seq<T>, s: seq<T>, n: nat)
    requires |a| == |s| && n <= |s|
    requires forall k :: 0 <= k < n ==> a[k] == s[n - 1 - k]
    requires forall k :: n <= k < |s| ==> a[k] == s[k]
    ensures a == Reversed(s[..n]) + s[n..]
  {
    ReversedIndex(s[..n]);
    var r := Reversed(s[..n]) + s[n..];
    forall k | 0 <= k < |a| ensures a[k] == r[k] {
      if k < n {
        assert r[k] == s[..n][n - 1 - k];
      } else {
        assert r[k] == s[k];
      }
    }
  }

  class Buffer<T(0)> {
    /** The allocation, whose length is the capacity (`maxlen`). */
    var data: array<T>
    /** The number of elements: the first `len` slots of `data`. */
    var len: nat

    ghost predicate Valid()
      reads this
    {
      len <= data.Length
    }

    /** The elements, in order. */
    function Contents(): seq<T>
      reads this, data
      requires Valid()
    {
      data[..len]
    }

    function Capacity(): nat
      reads this
    {
      data.Length
    }

    /** An empty array with room for `maxlen` elements. */
    constructor (maxlen: nat)
      ensures Valid() && fresh(data)
      ensures Contents() == [] && Capacity() == maxlen
    {
      data := new T[maxlen];
      len := 0;
    }

    /** Appends `x`; a full array first grows to Grown(capacity) and keeps
        its elements. */
    method Add(x: T)
      requires Valid()
      modifies this, data
      ensures Valid()
      ensures Contents() == old(Contents()) + [x]
      ensures Capacity() == CapacityAfterAdd(old(len), old(Capacity()))
      ensures data == old(data) || fresh(data)
    {
      if len == data.Length {
        var grown := new T[Grown(data.Length)];
        forall i | 0 <= i < data.Length {
          grown[i] := data[i];
        }
        data := grown;
      }
      data[len] := x;
      len := len + 1;
    }

    /** Removes the element at `idx`, shifting every later element one
        slot to the left; the capacity is kept. */
    method RemoveAt(idx: nat)
      requires Valid() && idx < len
      modifies this`len, data
      ensures Valid() && data == old(data)
      ensures Contents() == Deleted(old(Contents()), idx, 1)
    {
      ghost var s := data[..len];
      var i := idx;
      while i < len - 1
        invariant idx <= i <= len - 1 && len == |s|
        invariant forall k :: 0 <= k < idx ==> data[k] == s[k]
        invariant forall k :: idx <= k < i ==> data[k] == s[k + 1]
        invariant forall k :: i <= k < len ==> data[k] == s[k]
      {
        data[i] := data[i + 1];
        i := i + 1;
      }
      len := len - 1;
      assert data[..len] == Deleted(s, idx, 1);
    }

    /** Removes every element matching `val`; the survivors keep their
        order. After a removal the same index is examined again, since a
        new element has been shifted into it. */
    method Remove(val: T, eq: (T, T) -> bool)
      requires Valid()
      modifies this`len, data
      ensures Valid() && data == old(data)
      ensures Contents() == Filter(old(Contents()), val, eq)
    {
      ghost var s := Contents();
      ghost var k := 0;
      ghost var kept: seq<T> := [];
      var i := 0;
      assert data[..len] == kept + s[0..];
      while i < len
        invariant Valid() && data == old(data)
        invariant k <= |s| && i == |kept| && kept == Filter(s[..k], val, eq)
        invariant data[..len] == kept + s[k..]
        decreases |s| - k
      {
        FilterStep(s, k, val, eq);
        assert data[i] == (kept + s[k..])[i] == s[k];
        if eq(data[i], val) {
          DeleteAfter(kept, s, k);
          RemoveAt(i);
        } else {
          MoveAfter(kept, s, k);
          kept := kept + [s[k]];
          i := i + 1;
        }
        k := k + 1;
      }
      assert s[..k] == s;
    }

    /** Overwrites every element matching `from` with `to`. */
    method Replace(from: T, to: T, eq: (T, T) -> bool)
      requires Valid()
      modifies data
      ensures Valid()
      ensures Contents() == ReplaceElems(old(Contents()), from, to, eq)
    {
      ghost var s := Contents();
      for i := 0 to len
        invariant forall k :: 0 <= k < i ==> data[k] == if eq(s[k], from) then to else s[k]
        invariant forall k :: i <= k < len ==> data[k] == s[k]
      {
        if eq(data[i], from) {
          data[i] := to;
        }
      }
      ReplaceElemsAt(s, from, to, eq);
      assert data[..len] == ReplaceElems(s, from, to, eq);
    }

    /** Whether some element matches `val`. */
    method Contains(val: T, eq: (T, T) -> bool) returns (found: bool)
      requires Valid()
      ensures found <==> exists i :: 0 <= i < |Contents()| && eq(Contents()[i], val)
    {
      for i := 0 to len
        invariant forall j :: 0 <= j < i ==> !eq(data[j], val)
      {
        if eq(data[i], val) {
          assert Contents()[i] == data[i];
          return true;
        }
      }
      return false;
    }

    /** Whether both arrays have the same length and match position by
        position; arrays of different lengths are never equal. */
    method Equals(other: Buffer<T>, eq: (T, T) -> bool) returns (same: bool)
      requires Valid() && other.Valid()
      ensures same <==> ElemsEqual(Contents(), other.Contents(), eq)
    {
      if len != other.len {
        return false;
      }
      for i := 0 to len
        invariant forall j :: 0 <= j < i ==> eq(data[j], other.data[j])
      {
        if !eq(data[i], other.data[i]) {
          assert !eq(Contents()[i], other.Contents()[i]);
          return false;
        }
      }
      return true;
    }

    /** Reverses the first `n` elements in place (`n` is the length for an
        array and the length without the sentinel for a string). */
    method Reverse(n: nat)
      requires Valid() && n <= len
      modifies data
      ensures Valid()
      ensures Contents() == Reversed(old(Contents())[..n]) + old(Contents())[n..]
    {
      ghost var s := Contents();
      // Slots i and j - 1 = n - 1 - i are swapped while i < n - 1 - i.
      var i, j := 0, n;
      while i + 1 < j
        invariant i <= j && i + j == n
        invariant forall k :: 0 <= k < i ==> data[k] == s[n - 1 - k]
        invariant forall k :: j <= k < n ==> data[k] == s[n - 1 - k]
        invariant forall k :: i <= k < j ==> data[k] == s[k]
        invariant forall k :: n <= k < len ==> data[k] == s[k]
      {
        data[i], data[j - 1] := data[j - 1], data[i];
        i, j := i + 1, j - 1;
      }
      ReversedPrefix(data[..len], s, n);
    }

    /** The parts between elements matching `delim`, in order, built by one
        left-to-right scan. */
    method Split(delim: T, eq: (T, T) -> bool) returns (parts: seq<seq<T>>)
      requires Valid()
      ensures parts == SplitElems(Contents(), delim, eq)
    {
      parts := [];
      var part: seq<T> := [];
      for i := 0 to len
        invariant parts + [part] == SplitElems(data[..i], delim, eq)
      {
        assert Init(data[..i + 1]) == data[..i] && Last(data[..i + 1]) == data[i];
        if !eq(data[i], delim) {
          part := part + [data[i]];
        } else {
          parts := parts + [part];
          part := [];
        }
      }
      assert data[..len] == Contents();
      parts := parts + [part];
    }

    /** A new array with its own storage, the same capacity and the same
        stored slots (the whole allocation is duplicated). */
    method Copy() returns (c: Buffer<T>)
      requires Valid()
      ensures fresh(c) && fresh(c.data) && c.Valid()
      ensures c.data[..] == data[..] && c.len == len
      ensures c.Contents() == Contents() && c.Capacity() == Capacity()
    {
      c := new Buffer(data.Length);
      forall i | 0 <= i < data.Length {
        c.data[i] := data[i];
      }
      c.len := len;
    }
  }
}
