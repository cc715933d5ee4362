/** Capacity growth shared by the array engine and the hash map.
    Both multiply a capacity by 1.5 and truncate it back to an integer. */
module Growth {

  /** The growth step as written: `maxlen *= 1.5` on an int, which
      truncates toward zero (the operands are never negative). */
  function GrownAsWritten(c: nat): nat
  {
    c * 3 / 2
  }

  /** As written, growth is the identity exactly on capacities 0 and 1:
      a full array of capacity 0 or 1 is "grown" to the same size and the
      next element is written past the end of the allocation, and a map of
      capacity 1 rebuilds itself at capacity 1 forever. */
  lemma AsWrittenStalls(c: nat)
    ensures GrownAsWritten(c) == c <==> c <= 1
    ensures c >= 2 ==> GrownAsWritten(c) > c
  {
  }

  /** `n` growth steps as written, starting from capacity `c`. */
  function IterateAsWritten(c: nat, n: nat): nat
  {
    if n == 0 then c else GrownAsWritten(IterateAsWritten(c, n - 1))
  }

  /** A map of capacity 1 holding one key is at load 1/1 >= 1/2, so adding a
      key rebuilds it; as written every rebuild has capacity 1 again, so the
      load test holds after any number of rebuilds and the add never
      returns. */
  lemma {:induction false} MapCapacityOneNeverSettles(n: nat)
    ensures IterateAsWritten(1, n) == 1
    ensures 2 * 1 >= IterateAsWritten(1, n)
  {
    if n > 0 {
      MapCapacityOneNeverSettles(n - 1);
    }
  }

  /** The growth the engine evidently intends: geometric growth by 1.5 that
      always makes room for at least one more element. */
  function Grown(c: nat): (r: nat)
    ensures r > c
    ensures c >= 2 ==> r == GrownAsWritten(c)
  {
    if c < 2 then c + 1 else c * 3 / 2
  }

  /** One append to an array of `len` elements in `cap` slots: a full
      array grows first. */
  function CapacityAfterAdd(len: nat, cap: nat): nat
  {
    if len == cap then Grown(cap) else cap
  }

  /** Capacity of an array of `len` elements in `cap` slots after `n`
      appends. */
  function CapacityAfterAdds(len: nat, cap: nat, n: nat): nat
  {
    if n == 0 then cap else CapacityAfterAdd(len + n - 1, CapacityAfterAdds(len, cap, n - 1))
  }

  /** Appends always leave room for what they stored, never shrink the
      array, and never reallocate while the array has room. */
  lemma {:induction false} CapacityAfterAddsBounds(len: nat, cap: nat, n: nat)
    requires len <= cap
    ensures len + n <= CapacityAfterAdds(len, cap, n)
    ensures cap <= CapacityAfterAdds(len, cap, n)
    ensures len + n <= cap ==> CapacityAfterAdds(len, cap, n) == cap
  {
    if n > 0 {
      CapacityAfterAddsBounds(len, cap, n - 1);
    }
  }

  /** `n` appends followed by `m` appends are `n + m` appends. */
  lemma {:induction false} CapacityAfterAddsCompose(len: nat, cap: nat, n: nat, m: nat)
    ensures CapacityAfterAdds(len + n, CapacityAfterAdds(len, cap, n), m) == CapacityAfterAdds(len, cap, n + m)
  {
    if m > 0 {
      CapacityAfterAddsCompose(len, cap, n, m - 1);
    }
  }

  /** Repeated growth from any capacity eventually leaves more than twice
      `len` slots: the map's grow-until-below-half loop terminates. */
  function GrowUntilSparse(len: nat, c: nat): (r: nat)
    ensures r >= c && 2 * len < r
    ensures 2 * len < c ==> r == c
    decreases 2 * len + 1 - c
  {
    if 2 * len < c then c else GrowUntilSparse(len, Grown(c))
  }
}
