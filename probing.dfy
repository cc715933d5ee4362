/** The hash map's open addressing, on the slot contents as sequences.
    `keys[s]` is the key stored in slot s, 0 when the slot is empty (keys
    are addresses, never 0), and `vals[s]` is the value stored beside it.
    A key's home slot is the key modulo the capacity; probing walks the
    slots from there, wrapping around once. */
module Probing {
  import opened Opt
  import opened Growth

  /** A stored key: an address, never 0. */
  type Key = k: nat | k > 0 witness 1

  /** The two slot arrays and the number of stored pairs. */
  datatype Table<V> = Table(keys: seq<nat>, vals: seq<V>, len: nat)

  /** Both slot arrays have the capacity as their length, which is not 0. */
  predicate Shaped<V>(t: Table<V>)
  {
    |t.keys| == |t.vals| > 0
  }

  function Cap<V>(t: Table<V>): nat
  {
    |t.keys|
  }

  /** Number of occupied slots. */
  function Count(ks: seq<nat>): (n: nat)
    ensures n <= |ks|
  {
    if ks == [] then 0 else (if ks[0] != 0 then 1 else 0) + Count(ks[1..])
  }

  /** The map's invariant between operations: the length counts the
      occupied slots and fewer than half of the slots are occupied. */
  predicate Valid<V>(t: Table<V>)
  {
    Shaped(t) && t.len == Count(t.keys) && 2 * t.len < Cap(t)
  }

  /** The home slot of `k`. */
  function Home(k: nat, cap: nat): (h: nat)
    requires cap > 0
    ensures h < cap
  {
    k % cap
  }

  /** The slot visited at step `j` of a probe for `k`: the home slot plus
      `j`, wrapped around the capacity. */
  function Slot(k: nat, cap: nat, j: nat): (s: nat)
    requires cap > 0 && j < cap
    ensures s < cap
    ensures s == (Home(k, cap) + j) % cap
  {
    var h := Home(k, cap);
    if h + j < cap then h + j else h + j - cap
  }

  /** The step at which a probe for `k` visits slot `s`. */
  function Step(k: nat, cap: nat, s: nat): (j: nat)
    requires cap > 0 && s < cap
    ensures j < cap && Slot(k, cap, j) == s
  {
    var h := Home(k, cap);
    if s >= h then s - h else s + cap - h
  }

  /** Different steps visit different slots. */
  lemma StepOfSlot(k: nat, cap: nat, j: nat)
    requires cap > 0 && j < cap
    ensures Step(k, cap, Slot(k, cap, j)) == j
  {
  }

  /** get and contains_key: the probe for `k` from step `j`, stopping at
      the first empty slot (not found) or at the first slot holding `k`. */
  function FindFrom(ks: seq<nat>, k: nat, j: nat): (r: Option<nat>)
    requires |ks| > 0
    ensures r.Some? ==> r.value < |ks| && ks[r.value] == k && k != 0
    decreases |ks| - j
  {
    if j >= |ks| then None
    else
      var s := Slot(k, |ks|, j);
      if ks[s] == 0 then None
      else if ks[s] == k then Some(s)
      else FindFrom(ks, k, j + 1)
  }

  function Find(ks: seq<nat>, k: nat): Option<nat>
    requires |ks| > 0
  {
    FindFrom(ks, k, 0)
  }

  /** The value get returns for `k`, None for a NULL result. */
  function Lookup<V>(t: Table<V>, k: nat): (r: Option<V>)
    requires Shaped(t)
    ensures r.Some? ==> k != 0 && exists s :: 0 <= s < Cap(t) && t.keys[s] == k && t.vals[s] == r.value
  {
    match Find(t.keys, k)
    case None => None
    case Some(s) => Some(t.vals[s])
  }

  /** The slot add writes: the first slot, in probe order, that is empty
      or already holds `k`. */
  function FreeOrKey(ks: seq<nat>, k: nat, j: nat): (r: Option<nat>)
    requires |ks| > 0
    ensures r.Some? ==> r.value < |ks| && (ks[r.value] == 0 || ks[r.value] == k)
    ensures r.None? ==> forall i :: j <= i < |ks| ==> ks[Slot(k, |ks|, i)] != 0
    decreases |ks| - j
  {
    if j >= |ks| then None
    else
      var s := Slot(k, |ks|, j);
      if ks[s] == 0 || ks[s] == k then Some(s)
      else FreeOrKey(ks, k, j + 1)
  }

  /** The slot remove clears: the first slot, in probe order over the
      whole table, that holds `k`. Empty slots do not stop this probe. */
  function Holding(ks: seq<nat>, k: nat, j: nat): (r: Option<nat>)
    requires |ks| > 0
    ensures r.Some? ==> r.value < |ks| && ks[r.value] == k
    ensures r.Some? ==> (j <= Step(k, |ks|, r.value) &&
                         forall i :: j <= i < Step(k, |ks|, r.value) ==> ks[Slot(k, |ks|, i)] != k)
    ensures r.None? ==> forall i :: j <= i < |ks| ==> ks[Slot(k, |ks|, i)] != k
    decreases |ks| - j
  {
    if j >= |ks| then None
    else if ks[Slot(k, |ks|, j)] == k then
      StepOfSlot(k, |ks|, j);
      Some(Slot(k, |ks|, j))
    else Holding(ks, k, j + 1)
  }

  /** Storing `k` in slot `s` changes the count by what left and what
      came in. */
  lemma {:induction false} CountUpdate(ks: seq<nat>, s: nat, k: nat)
    requires s < |ks|
    ensures Count(ks[s := k]) == Count(ks) - (if ks[s] != 0 then 1 else 0) + (if k != 0 then 1 else 0)
  {
    if s == 0 {
      assert ks[s := k][1..] == ks[1..];
    } else {
      assert ks[s := k][1..] == ks[1..][s - 1 := k];
      CountUpdate(ks[1..], s - 1, k);
    }
  }

  lemma {:induction false} CountZeros(n: nat)
    ensures Count(seq(n, _ => 0)) == 0
  {
    if n > 0 {
      assert seq(n, _ => 0)[1..] == seq(n - 1, _ => 0);
      CountZeros(n - 1);
    }
  }

  /** A table with no empty slot has every slot occupied. */
  lemma {:induction false} CountFull(ks: seq<nat>)
    requires forall s :: 0 <= s < |ks| ==> ks[s] != 0
    ensures Count(ks) == |ks|
  {
    if ks != [] {
      assert forall s :: 0 <= s < |ks[1..]| ==> ks[1..][s] == ks[s + 1];
      CountFull(ks[1..]);
    }
  }

  /** A fresh table: every key slot cleared, every value slot `fill`. */
  function Empty<V>(cap: nat, fill: V): (t: Table<V>)
    ensures |t.keys| == |t.vals| == cap && t.len == Count(t.keys) == 0
    ensures forall s :: 0 <= s < cap ==> t.keys[s] == 0
  {
    CountZeros(cap);
    Table(seq(cap, _ => 0), seq(cap, _ => fill), 0)
  }

  /** The insertion add performs before its load check: `v` goes into the
      slot FreeOrKey finds, and the length grows when that slot was empty.
      Without such a slot nothing is written. */
  function Put<V>(t: Table<V>, k: Key, v: V): (r: Table<V>)
    requires Shaped(t)
    ensures Shaped(r) && Cap(r) == Cap(t) && r.len <= t.len + 1
    ensures t.len == Count(t.keys) ==> r.len == Count(r.keys)
  {
    match FreeOrKey(t.keys, k, 0)
    case None => t
    case Some(s) =>
      if t.keys[s] == k then Table(t.keys, t.vals[s := v], t.len)
      else
        CountUpdate(t.keys, s, k);
        Table(t.keys[s := k], t.vals[s := v], t.len + 1)
  }

  /** The value stored for the key in slot `i`, as the rebuild, values_new
      and equals read it: through get, and from the slot itself when get
      does not reach the key. */
  function SlotValue<V>(t: Table<V>, i: nat): (v: V)
    requires Shaped(t) && i < Cap(t)
    ensures v == t.vals[i] || Lookup(t, t.keys[i]) == Some(v)
  {
    match Lookup(t, t.keys[i])
    case Some(v) => v
    case None => t.vals[i]
  }

  /** Slots `i` and later of `t` inserted into `into`, in slot order. */
  function Reinsert<V>(t: Table<V>, into: Table<V>, i: nat): (r: Table<V>)
    requires Shaped(t) && Shaped(into) && i <= Cap(t)
    ensures Shaped(r) && Cap(r) == Cap(into)
    ensures into.len == Count(into.keys) ==> r.len == Count(r.keys)
    ensures r.len <= into.len + Count(t.keys[i..])
    decreases Cap(t) - i
  {
    if i == Cap(t) then into
    else
      assert t.keys[i..][0] == t.keys[i] && t.keys[i..][1..] == t.keys[i + 1..];
      if t.keys[i] == 0 then Reinsert(t, into, i + 1)
      else Reinsert(t, Put(into, t.keys[i], SlotValue(t, i)), i + 1)
  }

  /** Every stored pair inserted, in slot order, into a fresh table of
      capacity `cap`. Value slots that stay empty hold a copy of the first
      value slot. */
  function Rebuild<V>(t: Table<V>, cap: nat): (r: Table<V>)
    requires Shaped(t) && cap > 0
    ensures Shaped(r) && Cap(r) == cap
    ensures r.len == Count(r.keys) && r.len <= Count(t.keys)
  {
    assert t.keys[0..] == t.keys;
    Reinsert(t, Empty(cap, t.vals[0]), 0)
  }

  /** The rebuild add performs when the load reaches one half. */
  function Grow<V>(t: Table<V>): (r: Table<V>)
    requires Shaped(t)
    ensures Shaped(r) && Cap(r) == Grown(Cap(t))
    ensures r.len == Count(r.keys) && r.len <= Count(t.keys)
  {
    Rebuild(t, Grown(Cap(t)))
  }

  /** Rebuilds until fewer than half of the slots are occupied. */
  function Settle<V>(t: Table<V>): (r: Table<V>)
    requires Shaped(t) && t.len == Count(t.keys)
    ensures Valid(r) && Cap(r) >= Cap(t) && r.len <= t.len
    ensures 2 * t.len < Cap(t) ==> r == t
    decreases 2 * t.len + 1 - Cap(t)
  {
    if 2 * t.len >= Cap(t) then Settle(Grow(t)) else t
  }

  /** add: the insertion, and the load check when a new key was stored. */
  function Added<V>(t: Table<V>, k: Key, v: V): (r: Table<V>)
    requires Shaped(t) && t.len == Count(t.keys)
    ensures Shaped(r) && r.len == Count(r.keys)
    ensures Valid(t) ==> Valid(r)
  {
    var p := Put(t, k, v);
    if p.len == t.len then p else Settle(p)
  }

  /** remove: the first slot holding `k` is cleared and the length drops;
      the value slot and every other slot keep their contents. */
  function Removed<V>(t: Table<V>, k: Key): (r: Table<V>)
    requires Shaped(t) && t.len == Count(t.keys)
    ensures Shaped(r) && Cap(r) == Cap(t) && r.len == Count(r.keys)
    ensures Valid(t) ==> Valid(r)
  {
    match Holding(t.keys, k, 0)
    case None => t
    case Some(s) =>
      CountUpdate(t.keys, s, 0);
      Table(t.keys[s := 0], t.vals, t.len - 1)
  }

  /** keys_new: the stored keys, slots `i` and later, in slot order. */
  function KeysFrom(ks: seq<nat>, i: nat): (r: seq<nat>)
    requires i <= |ks|
    ensures |r| == Count(ks[i..])
    ensures forall x :: x in r <==> x != 0 && exists s :: i <= s < |ks| && ks[s] == x
    decreases |ks| - i
  {
    if i == |ks| then []
    else
      assert ks[i..][0] == ks[i] && ks[i..][1..] == ks[i + 1..];
      (if ks[i] != 0 then [ks[i]] else []) + KeysFrom(ks, i + 1)
  }

  /** values_new: the value of every stored pair, slots `i` and later, in
      slot order. */
  function ValuesFrom<V>(t: Table<V>, i: nat): (r: seq<V>)
    requires Shaped(t) && i <= Cap(t)
    ensures |r| == Count(t.keys[i..])
    decreases Cap(t) - i
  {
    if i == Cap(t) then []
    else
      assert t.keys[i..][0] == t.keys[i] && t.keys[i..][1..] == t.keys[i + 1..];
      (if t.keys[i] != 0 then [SlotValue(t, i)] else []) + ValuesFrom(t, i + 1)
  }
}
