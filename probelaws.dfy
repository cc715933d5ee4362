/** What get, add, the rebuild and remove do to the pairs a table holds.
    The central invariant is `Reachable`: every stored key is found by get
    at its own slot. It holds for a fresh map, add keeps it, and remove as
    written can break it. */
module ProbeLaws {
  import opened Opt
  import opened Growth
  import opened Probing
  import opened SeqSpec

  /** The key `k` sits in one of slots `i` and later. */
  predicate StoredFrom(ks: seq<nat>, k: nat, i: nat)
  {
    k != 0 && exists s :: i <= s < |ks| && ks[s] == k
  }

  predicate Stored(ks: seq<nat>, k: nat)
  {
    StoredFrom(ks, k, 0)
  }

  /** No key is stored twice. */
  predicate Distinct(ks: seq<nat>)
  {
    forall x, y :: 0 <= x < y < |ks| && ks[x] != 0 ==> ks[x] != ks[y]
  }

  /** Every stored key is found by get, at its own slot. */
  predicate Reachable(ks: seq<nat>)
  {
    |ks| > 0 && forall s :: 0 <= s < |ks| && ks[s] != 0 ==> Find(ks, ks[s]) == Some(s)
  }

  /** The value stored with `k` anywhere in the table, whether or not a
      probe from its home slot reaches it. */
  function Held<V>(t: Table<V>, k: nat): Option<V>
    requires Shaped(t)
  {
    if k == 0 then None
    else match Holding(t.keys, k, 0)
      case None => None
      case Some(x) => Some(t.vals[x])
  }

  lemma ReachableDistinct(ks: seq<nat>)
    requires Reachable(ks)
    ensures Distinct(ks)
  {
    forall x, y | 0 <= x < y < |ks| && ks[x] != 0
      ensures ks[x] != ks[y]
    {
      assert Find(ks, ks[x]) == Some(x);
    }
  }

  /** Under the invariant, get returns NULL exactly for the keys that are
      not stored. */
  lemma FindAbsent(ks: seq<nat>, k: nat)
    requires Reachable(ks)
    ensures Find(ks, k).None? <==> !Stored(ks, k)
  {
    if Stored(ks, k) {
      var s :| 0 <= s < |ks| && ks[s] == k;
      assert Find(ks, ks[s]) == Some(s);
    }
  }

  /** get and add walk the same slots: get stops where add would write,
      finding the key there or not at all. */
  lemma {:induction false} FindThroughFree(ks: seq<nat>, k: nat, j: nat)
    requires |ks| > 0
    ensures FindFrom(ks, k, j) == match FreeOrKey(ks, k, j)
      case None => None
      case Some(s) => if ks[s] == 0 then None else Some(s)
    decreases |ks| - j
  {
    if j < |ks| && ks[Slot(k, |ks|, j)] != 0 && ks[Slot(k, |ks|, j)] != k {
      FindThroughFree(ks, k, j + 1);
    }
  }

  /** Writing `k` into the empty slot add chose makes get find it there. */
  lemma {:induction false} FindNew(ks: seq<nat>, k: Key, j: nat, s: nat)
    requires |ks| > 0 && FreeOrKey(ks, k, j) == Some(s) && ks[s] == 0
    ensures FindFrom(ks[s := k], k, j) == Some(s)
    decreases |ks| - j
  {
    if Slot(k, |ks|, j) != s {
      FindNew(ks, k, j + 1, s);
    }
  }

  /** Filling an empty slot leaves get's answer alone for every key get
      already found. */
  lemma {:induction false} FindKept(ks: seq<nat>, k: nat, j: nat, s: nat, other: nat)
    requires |ks| > 0 && s < |ks| && ks[s] == 0 && FindFrom(ks, k, j).Some?
    ensures FindFrom(ks[s := other], k, j) == FindFrom(ks, k, j)
    decreases |ks| - j
  {
    if ks[Slot(k, |ks|, j)] != k {
      FindKept(ks, k, j + 1, s, other);
    }
  }

  /** When add finds no slot to write, every slot is occupied. */
  lemma FreeOrKeyFull(ks: seq<nat>, k: nat)
    requires |ks| > 0 && FreeOrKey(ks, k, 0).None?
    ensures Count(ks) == |ks|
  {
    forall s | 0 <= s < |ks|
      ensures ks[s] != 0
    {
      var j := Step(k, |ks|, s);
      assert ks[Slot(k, |ks|, j)] != 0;
    }
    CountFull(ks);
  }

  /** The full-cycle probe of remove finds the one slot holding `k`. */
  lemma HoldingFinds(ks: seq<nat>, k: nat, x: nat)
    requires |ks| > 0 && Distinct(ks) && x < |ks| && ks[x] == k && k != 0
    ensures Holding(ks, k, 0) == Some(x)
  {
    var j := Step(k, |ks|, x);
    assert ks[Slot(k, |ks|, j)] == k;
  }

  /** The full-cycle probe finds nothing exactly when `k` is not stored. */
  lemma HoldingAbsent(ks: seq<nat>, k: nat)
    requires |ks| > 0 && k != 0
    ensures Holding(ks, k, 0).None? <==> !Stored(ks, k)
  {
    if Stored(ks, k) {
      var x :| 0 <= x < |ks| && ks[x] == k;
      var j := Step(k, |ks|, x);
      assert ks[Slot(k, |ks|, j)] == k;
    }
  }

  /** With distinct keys the value a slot reports is its own. */
  lemma SlotValueOwn<V>(t: Table<V>, x: nat)
    requires Shaped(t) && Distinct(t.keys) && x < Cap(t) && t.keys[x] != 0
    ensures SlotValue(t, x) == t.vals[x]
  {
    match Find(t.keys, t.keys[x])
    case None =>
    case Some(y) =>
      assert t.keys[y] == t.keys[x];
  }

  /** The rebuild's reading of a slot agrees with get wherever get reaches
      the key, and under the invariant get always does. */
  lemma SlotValueAgrees<V>(t: Table<V>, x: nat)
    requires Shaped(t) && Reachable(t.keys) && x < Cap(t) && t.keys[x] != 0
    ensures Lookup(t, t.keys[x]) == Some(SlotValue(t, x)) == Some(t.vals[x])
  {
  }

  /** Under the invariant the stored value is the one get returns. */
  lemma HeldIsLookup<V>(t: Table<V>, k: nat)
    requires Shaped(t) && Reachable(t.keys)
    ensures Held(t, k) == Lookup(t, k)
  {
    FindAbsent(t.keys, k);
    if Stored(t.keys, k) {
      var x :| 0 <= x < |t.keys| && t.keys[x] == k;
      ReachableDistinct(t.keys);
      HoldingFinds(t.keys, k, x);
      assert Find(t.keys, t.keys[x]) == Some(x);
    } else if k != 0 {
      HoldingAbsent(t.keys, k);
    }
  }

  /** add's insertion keeps the invariant and stores one more key exactly
      when `k` was new. */
  lemma PutReachable<V>(t: Table<V>, k: Key, v: V)
    requires Shaped(t) && Reachable(t.keys) && Count(t.keys) < Cap(t)
    ensures Reachable(Put(t, k, v).keys)
    ensures Count(Put(t, k, v).keys) == Count(t.keys) + (if Stored(t.keys, k) then 0 else 1)
  {
    var ks := t.keys;
    if FreeOrKey(ks, k, 0).None? {
      FreeOrKeyFull(ks, k);
    }
    var s := FreeOrKey(ks, k, 0).value;
    FindThroughFree(ks, k, 0);
    FindAbsent(ks, k);
    if ks[s] == 0 {
      var ks' := ks[s := k];
      assert Put(t, k, v).keys == ks';
      CountUpdate(ks, s, k);
      forall x | 0 <= x < |ks'| && ks'[x] != 0
        ensures Find(ks', ks'[x]) == Some(x)
      {
        if x == s {
          FindNew(ks, k, 0, s);
        } else {
          FindKept(ks, ks[x], 0, s, k);
        }
      }
    }
  }

  /** After add's insertion the stored keys are the old ones and `k`. */
  lemma PutStored<V>(t: Table<V>, k: Key, v: V, other: nat)
    requires Shaped(t) && Reachable(t.keys) && Count(t.keys) < Cap(t)
    ensures Stored(Put(t, k, v).keys, other) <==> other == k || Stored(t.keys, other)
  {
    var ks := t.keys;
    if FreeOrKey(ks, k, 0).None? {
      FreeOrKeyFull(ks, k);
    }
    var s := FreeOrKey(ks, k, 0).value;
    var ks' := Put(t, k, v).keys;
    if ks[s] == 0 {
      assert ks' == ks[s := k];
      if Stored(ks', other) {
        var y :| 0 <= y < |ks'| && ks'[y] == other;
        if y != s {
          assert ks[y] == other;
        }
      }
      if Stored(ks, other) {
        var y :| 0 <= y < |ks| && ks[y] == other;
        assert ks'[y] == other;
      }
    }
    assert ks'[s] == k;
  }

  /** add's insertion maps `k` to `v` and leaves every other key's value. */
  lemma PutLookup<V>(t: Table<V>, k: Key, v: V, other: nat)
    requires Shaped(t) && Reachable(t.keys) && Count(t.keys) < Cap(t)
    ensures Lookup(Put(t, k, v), other) == if other == k then Some(v) else Lookup(t, other)
  {
    var ks := t.keys;
    if FreeOrKey(ks, k, 0).None? {
      FreeOrKeyFull(ks, k);
    }
    var s := FreeOrKey(ks, k, 0).value;
    FindThroughFree(ks, k, 0);
    var r := Put(t, k, v);
    if ks[s] == 0 {
      assert r.keys == ks[s := k] && r.vals == t.vals[s := v];
      if other == k {
        FindNew(ks, k, 0, s);
      } else {
        match Find(ks, other)
        case Some(y) =>
          FindKept(ks, other, 0, s, k);
        case None =>
          PutReachable(t, k, v);
          FindAbsent(ks, other);
          PutStored(t, k, v, other);
          FindAbsent(r.keys, other);
      }
    } else {
      assert r.keys == ks && r.vals == t.vals[s := v];
    }
  }

  /** What the rebuild needs before slot `i`: distinct keys, none of those
      still to come already in `into`, `into` under the invariant and room
      in it for all of them. */
  predicate CanReinsert<V>(t: Table<V>, into: Table<V>, i: nat)
  {
    Shaped(t) && Shaped(into) && i <= Cap(t) && Distinct(t.keys)
    && Reachable(into.keys) && into.len == Count(into.keys)
    && Count(into.keys) + Count(t.keys[i..]) < Cap(into)
    && forall x :: i <= x < Cap(t) ==> !Stored(into.keys, t.keys[x])
  }

  lemma ReinsertSkip<V>(t: Table<V>, into: Table<V>, i: nat)
    requires CanReinsert(t, into, i) && i < Cap(t) && t.keys[i] == 0
    ensures CanReinsert(t, into, i + 1)
  {
    assert t.keys[i..][0] == t.keys[i] && t.keys[i..][1..] == t.keys[i + 1..];
  }

  lemma ReinsertStep<V>(t: Table<V>, into: Table<V>, i: nat)
    requires CanReinsert(t, into, i) && i < Cap(t) && t.keys[i] != 0
    ensures CanReinsert(t, Put(into, t.keys[i], SlotValue(t, i)), i + 1)
    ensures Count(Put(into, t.keys[i], SlotValue(t, i)).keys) == Count(into.keys) + 1
  {
    var k: Key := t.keys[i];
    var v := SlotValue(t, i);
    assert t.keys[i..][0] == t.keys[i] && t.keys[i..][1..] == t.keys[i + 1..];
    PutReachable(into, k, v);
    forall x | i + 1 <= x < Cap(t)
      ensures !Stored(Put(into, k, v).keys, t.keys[x])
    {
      PutStored(into, k, v, t.keys[x]);
    }
  }

  /** The rebuild ends under the invariant with every key of slots `i`
      and later added to `into`. */
  lemma {:induction false} ReinsertCount<V>(t: Table<V>, into: Table<V>, i: nat)
    requires CanReinsert(t, into, i)
    ensures Reachable(Reinsert(t, into, i).keys)
    ensures Reinsert(t, into, i).len == into.len + Count(t.keys[i..])
    decreases Cap(t) - i
  {
    if i == Cap(t) {
      assert t.keys[i..] == [];
    } else {
      assert t.keys[i..][0] == t.keys[i] && t.keys[i..][1..] == t.keys[i + 1..];
      if t.keys[i] == 0 {
        ReinsertSkip(t, into, i);
        ReinsertCount(t, into, i + 1);
      } else {
        ReinsertStep(t, into, i);
        ReinsertCount(t, Put(into, t.keys[i], SlotValue(t, i)), i + 1);
      }
    }
  }

  /** A key not among those reinserted keeps the value it had in `into`. */
  lemma {:induction false} ReinsertKept<V>(t: Table<V>, into: Table<V>, i: nat, k: nat)
    requires CanReinsert(t, into, i) && !StoredFrom(t.keys, k, i)
    ensures Lookup(Reinsert(t, into, i), k) == Lookup(into, k)
    decreases Cap(t) - i
  {
    if i < Cap(t) {
      if t.keys[i] == 0 {
        ReinsertSkip(t, into, i);
        ReinsertKept(t, into, i + 1, k);
      } else {
        assert t.keys[i] != k;
        ReinsertStep(t, into, i);
        PutLookup(into, t.keys[i], SlotValue(t, i), k);
        ReinsertKept(t, Put(into, t.keys[i], SlotValue(t, i)), i + 1, k);
      }
    }
  }

  /** A reinserted key ends up with the value its slot reports. */
  lemma {:induction false} ReinsertMoved<V>(t: Table<V>, into: Table<V>, i: nat, x: nat)
    requires CanReinsert(t, into, i) && i <= x < Cap(t) && t.keys[x] != 0
    ensures Lookup(Reinsert(t, into, i), t.keys[x]) == Some(SlotValue(t, x))
    decreases Cap(t) - i
  {
    if t.keys[i] == 0 {
      ReinsertSkip(t, into, i);
      ReinsertMoved(t, into, i + 1, x);
    } else {
      var next := Put(into, t.keys[i], SlotValue(t, i));
      ReinsertStep(t, into, i);
      if i == x {
        PutLookup(into, t.keys[i], SlotValue(t, i), t.keys[x]);
        ReinsertKept(t, next, i + 1, t.keys[x]);
      } else {
        ReinsertMoved(t, next, i + 1, x);
      }
    }
  }

  /** The rebuild keeps every stored pair, reachable by get or not, and
      brings back the invariant. */
  lemma RebuildSpec<V>(t: Table<V>, cap: nat, k: nat)
    requires Shaped(t) && Distinct(t.keys) && Count(t.keys) < cap
    ensures Reachable(Rebuild(t, cap).keys)
    ensures Rebuild(t, cap).len == Count(t.keys)
    ensures Lookup(Rebuild(t, cap), k) == Held(t, k)
  {
    var e := Empty(cap, t.vals[0]);
    assert t.keys[0..] == t.keys;
    assert CanReinsert(t, e, 0);
    ReinsertCount(t, e, 0);
    if k != 0 && Holding(t.keys, k, 0).Some? {
      var x := Holding(t.keys, k, 0).value;
      ReinsertMoved(t, e, 0, x);
      SlotValueOwn(t, x);
    } else {
      if k != 0 {
        HoldingAbsent(t.keys, k);
      }
      ReinsertKept(t, e, 0, k);
    }
  }

  /** Rebuilding until sparse keeps the invariant, the length and every
      value, and the capacity is the first grown capacity above twice the
      length. */
  lemma {:induction false} SettleSpec<V>(t: Table<V>, k: nat)
    requires Shaped(t) && t.len == Count(t.keys) && Reachable(t.keys)
    ensures Reachable(Settle(t).keys) && Settle(t).len == t.len
    ensures Cap(Settle(t)) == GrowUntilSparse(t.len, Cap(t))
    ensures Lookup(Settle(t), k) == Lookup(t, k)
    decreases 2 * t.len + 1 - Cap(t)
  {
    if 2 * t.len >= Cap(t) {
      ReachableDistinct(t.keys);
      RebuildSpec(t, Grown(Cap(t)), k);
      HeldIsLookup(t, k);
      SettleSpec(Grow(t), k);
    }
  }

  /** add on a map under the invariant: `k` maps to `v`, every other key
      keeps its value, the invariant holds again. */
  lemma AddedLookup<V>(t: Table<V>, k: Key, v: V, other: nat)
    requires Valid(t) && Reachable(t.keys)
    ensures Reachable(Added(t, k, v).keys)
    ensures Lookup(Added(t, k, v), other) == if other == k then Some(v) else Lookup(t, other)
  {
    var p := Put(t, k, v);
    PutReachable(t, k, v);
    PutLookup(t, k, v, other);
    if p.len != t.len {
      SettleSpec(p, other);
    }
  }

  /** add stores one more pair exactly when `k` is new. */
  lemma AddedLength<V>(t: Table<V>, k: Key, v: V)
    requires Valid(t) && Reachable(t.keys)
    ensures Added(t, k, v).len == t.len + (if Stored(t.keys, k) then 0 else 1)
  {
    var p := Put(t, k, v);
    PutReachable(t, k, v);
    if Stored(t.keys, k) {
      assert p.len == t.len;
    } else {
      SettleSpec(p, k);
      assert Added(t, k, v) == Settle(p);
    }
  }

  /** A new key makes the capacity grow by 1.5 until fewer than half of
      the slots are occupied; an existing key leaves it alone. */
  lemma AddedCapacity<V>(t: Table<V>, k: Key, v: V)
    requires Valid(t) && Reachable(t.keys)
    ensures Cap(Added(t, k, v)) == if Stored(t.keys, k) then Cap(t) else GrowUntilSparse(t.len + 1, Cap(t))
  {
    var p := Put(t, k, v);
    PutReachable(t, k, v);
    if Stored(t.keys, k) {
      assert Added(t, k, v) == p;
    } else {
      assert p.len == t.len + 1 && Cap(p) == Cap(t);
      SettleSpec(p, k);
      assert Added(t, k, v) == Settle(p);
      assert Cap(Settle(p)) == GrowUntilSparse(t.len + 1, Cap(t));
    }
  }

  /** A map of capacity 9 holding 4 keys grows to 13 slots when a fifth
      key is added. */
  lemma AddedCapacityExample<V>(t: Table<V>, k: Key, v: V)
    requires Valid(t) && Reachable(t.keys) && Cap(t) == 9 && t.len == 4 && !Stored(t.keys, k)
    ensures Cap(Added(t, k, v)) == 13 && Added(t, k, v).len == 5
  {
    AddedLength(t, k, v);
    AddedCapacity(t, k, v);
    assert GrowUntilSparse(5, 9) == GrowUntilSparse(5, 13) == 13;
  }

  /** remove clears the slot holding `k` and nothing else: the value slots
      stay as they were, and `k` is neither stored nor found afterwards. */
  lemma RemovedSpec<V>(t: Table<V>, k: Key)
    requires Shaped(t) && t.len == Count(t.keys) && Distinct(t.keys)
    ensures forall x :: 0 <= x < Cap(t) ==> Removed(t, k).keys[x] == if t.keys[x] == k then 0 else t.keys[x]
    ensures Removed(t, k).vals == t.vals && Distinct(Removed(t, k).keys)
    ensures Removed(t, k).len == t.len - (if Stored(t.keys, k) then 1 else 0)
    ensures !Stored(Removed(t, k).keys, k) && Lookup(Removed(t, k), k) == None
  {
    HoldingAbsent(t.keys, k);
    if Stored(t.keys, k) {
      var x :| 0 <= x < |t.keys| && t.keys[x] == k;
      HoldingFinds(t.keys, k, x);
      assert Removed(t, k).keys == t.keys[x := 0];
    }
    HoldingAbsent(Removed(t, k).keys, k);
  }

  /** Clearing the slot remove's probe finds makes get's probe for `k`
      miss from the same step on, whatever else the table holds. */
  lemma {:induction false} FindAfterClear(ks: seq<nat>, k: nat, j: nat)
    requires |ks| > 0 && Holding(ks, k, j).Some?
    ensures FindFrom(ks[Holding(ks, k, j).value := 0], k, j) == None
    decreases |ks| - j
  {
    var s := Holding(ks, k, j).value;
    if ks[Slot(k, |ks|, j)] != k {
      FindAfterClear(ks, k, j + 1);
    }
  }

  /** remove on any key array, including one where add has stored a key
      twice: it clears exactly the first slot in probe order that holds
      `k`, keeps the values, and afterwards get and contains_key miss `k`. */
  lemma RemovedClearsFirst<V>(t: Table<V>, k: Key)
    requires Shaped(t) && t.len == Count(t.keys)
    ensures Stored(t.keys, k) ==>
      exists j :: (0 <= j < Cap(t) && t.keys[Slot(k, Cap(t), j)] == k &&
                   (forall i :: 0 <= i < j ==> t.keys[Slot(k, Cap(t), i)] != k) &&
                   Removed(t, k).keys == t.keys[Slot(k, Cap(t), j) := 0] &&
                   Removed(t, k).len == t.len - 1)
    ensures !Stored(t.keys, k) ==> Removed(t, k) == t
    ensures Removed(t, k).vals == t.vals
    ensures Find(Removed(t, k).keys, k) == None && Lookup(Removed(t, k), k) == None
  {
    HoldingAbsent(t.keys, k);
    match Holding(t.keys, k, 0)
    case None =>
    case Some(s) =>
      var j := Step(k, Cap(t), s);
      assert t.keys[Slot(k, Cap(t), j)] == k;
      FindAfterClear(t.keys, k, 0);
  }

  /** remove as written breaks the invariant. In a map of capacity 6 the
      keys 6 and 12 both have home slot 0, so 12 lands in slot 1; clearing
      slot 0 cuts 12's probe run, and get and contains_key stop finding 12
      although it is still stored. */
  lemma RemoveHidesKey()
    ensures var t := Table([6, 12, 0, 0, 0, 0], [10, 20, 0, 0, 0, 0], 2);
      Valid(t) && Reachable(t.keys) && Lookup(t, 12) == Some(20)
      && Removed(t, 6).keys == [0, 12, 0, 0, 0, 0]
      && Stored(Removed(t, 6).keys, 12) && Lookup(Removed(t, 6), 12) == None
  {
    var t := Table([6, 12, 0, 0, 0, 0], [10, 20, 0, 0, 0, 0], 2);
    assert Slot(12, 6, 1) == 1;
    assert Find(t.keys, 12) == Some(1);
    assert Find(t.keys, 6) == Some(0);
    var u := Removed(t, 6);
    assert Holding(t.keys, 6, 0) == Some(0);
    assert u.keys == [0, 12, 0, 0, 0, 0] && u.keys[1] == 12;
  }

  /** Adding a hidden key again stores it twice. Continuing the example,
      add's probe for 12 stops at the cleared slot 0 before it reaches
      slot 1, so 12 then sits in both slots. */
  lemma ReAddStoresTwice(u: Table<int>)
    requires u.keys == [0, 12, 0, 0, 0, 0] && |u.vals| == 6 && u.len == Count(u.keys)
    ensures Added(u, 12, 99).keys == [12, 12, 0, 0, 0, 0]
    ensures !Distinct(Added(u, 12, 99).keys)
  {
    CountZeros(6);
    CountUpdate(seq(6, _ => 0), 1, 12);
    assert u.keys == seq(6, _ => 0)[1 := 12];
    assert FreeOrKey(u.keys, 12, 0) == Some(0);
    var w := Added(u, 12, 99);
    assert w.keys == [12, 12, 0, 0, 0, 0];
    assert w.keys[0] == w.keys[1] != 0;
  }

  /** The rebuild as written reads each value through get. Continuing the
      example: adding 1 and 2 after the removal fills slots 2 and 3, and
      the third key brings the load to one half, so add rebuilds the map
      and asks get for 12, which returns NULL although 12 is still stored
      with value 20. */
  lemma RebuildReadsNull()
    ensures var u := Table([0, 12, 0, 0, 0, 0], [10, 20, 0, 0, 0, 0], 1);
      var w := Put(Put(u, 1, 30), 2, 40);
      w.keys == [0, 12, 1, 2, 0, 0] && w.vals[1] == 20 && w.len == 3
      && 2 * w.len >= Cap(w) && Lookup(w, 12) == None
  {
    var u := Table([0, 12, 0, 0, 0, 0], [10, 20, 0, 0, 0, 0], 1);
    assert Slot(1, 6, 1) == 2;
    assert FreeOrKey(u.keys, 1, 0) == Some(2);
    var p := Put(u, 1, 30);
    assert p.keys == [0, 12, 1, 0, 0, 0];
    assert Slot(2, 6, 1) == 3;
    assert FreeOrKey(p.keys, 2, 0) == Some(3);
  }

  /** The same rebuild reading the slot itself when get misses: 12 keeps
      its value 20 in the grown map. */
  lemma RebuildKeepsHidden(w: Table<int>)
    requires w.keys == [0, 12, 1, 2, 0, 0] && |w.vals| == 6 && w.vals[1] == 20
    ensures Lookup(w, 12) == None && Lookup(Grow(w), 12) == Some(20)
  {
    assert Holding(w.keys, 12, 0) == Some(1);
    assert Distinct(w.keys);
    assert Count(w.keys) <= 6;
    RebuildSpec(w, 9, 12);
  }

  /** The repair for the removal: rebuilding at the same capacity after
      clearing the slot. */
  function RemovedRebuilt<V>(t: Table<V>, k: Key): (r: Table<V>)
    requires Valid(t)
    ensures Valid(r) && Cap(r) == Cap(t)
  {
    Rebuild(Removed(t, k), Cap(t))
  }

  /** Remove then rebuild keeps the invariant: `k` is gone and every other
      key keeps its value and is found by get. */
  lemma RemovedRebuiltSpec<V>(t: Table<V>, k: Key, other: nat)
    requires Valid(t) && Reachable(t.keys)
    ensures Reachable(RemovedRebuilt(t, k).keys)
    ensures Lookup(RemovedRebuilt(t, k), other) == if other == k then None else Lookup(t, other)
  {
    var u := Removed(t, k);
    ReachableDistinct(t.keys);
    RemovedSpec(t, k);
    RebuildSpec(u, Cap(t), other);
    HeldIsLookup(t, other);
    if other != 0 {
      HoldingAbsent(u.keys, other);
      HoldingAbsent(t.keys, other);
      if other != k && Stored(t.keys, other) {
        var x :| 0 <= x < |t.keys| && t.keys[x] == other;
        HoldingFinds(t.keys, other, x);
        HoldingFinds(u.keys, other, x);
      } else if other != k {
        assert !Stored(u.keys, other);
      }
    }
  }

  /** equals: the same capacity, the same key in every slot, and matching
      values, as the slots report them, wherever a key is stored. */
  predicate Equal<V>(t1: Table<V>, t2: Table<V>, eq: (V, V) -> bool)
    requires Shaped(t1) && Shaped(t2)
  {
    Cap(t1) == Cap(t2) && t1.keys == t2.keys
    && forall x :: 0 <= x < Cap(t1) && t1.keys[x] != 0 ==> eq(SlotValue(t1, x), SlotValue(t2, x))
  }

  /** A map equals itself when the value comparison is reflexive. */
  lemma EqualReflexive<V>(t: Table<V>, eq: (V, V) -> bool)
    requires Shaped(t) && forall a :: eq(a, a)
    ensures Equal(t, t, eq)
  {
  }

  /** Equal maps under the invariant answer every get alike: both miss
      or both return matching values. */
  lemma EqualLookups<V>(t1: Table<V>, t2: Table<V>, eq: (V, V) -> bool, k: nat)
    requires Shaped(t1) && Shaped(t2) && Equal(t1, t2, eq) && Reachable(t1.keys)
    ensures Lookup(t1, k).None? <==> Lookup(t2, k).None?
    ensures Lookup(t1, k).Some? ==> eq(Lookup(t1, k).value, Lookup(t2, k).value)
  {
    match Find(t1.keys, k)
    case None =>
    case Some(x) =>
      ReachableDistinct(t1.keys);
      SlotValueOwn(t1, x);
      SlotValueOwn(t2, x);
  }

  /** One step of keys_new's scan: slot `i` adds its key when occupied. */
  lemma KeysFromStep(done: seq<nat>, ks: seq<nat>, i: nat)
    requires i < |ks|
    ensures done + KeysFrom(ks, i) == (done + if ks[i] != 0 then [ks[i]] else []) + KeysFrom(ks, i + 1)
  {
    var head := if ks[i] != 0 then [ks[i]] else [];
    assert KeysFrom(ks, i) == head + KeysFrom(ks, i + 1);
    ConcatAssoc(done, head, KeysFrom(ks, i + 1));
  }

  /** One step of values_new's scan: slot `i` adds its value when
      occupied. */
  lemma ValuesFromStep<V>(done: seq<V>, t: Table<V>, i: nat)
    requires Shaped(t) && i < Cap(t)
    ensures done + ValuesFrom(t, i) == (done + if t.keys[i] != 0 then [SlotValue(t, i)] else []) + ValuesFrom(t, i + 1)
  {
    var head := if t.keys[i] != 0 then [SlotValue(t, i)] else [];
    assert ValuesFrom(t, i) == head + ValuesFrom(t, i + 1);
    ConcatAssoc(done, head, ValuesFrom(t, i + 1));
  }

  /** Every occupied slot from `i` on contributes its value to
      values_new, at some position `n`. */
  lemma {:induction false} ValuesFromHas<V>(t: Table<V>, i: nat, x: nat) returns (n: nat)
    requires Shaped(t) && i <= x < Cap(t) && t.keys[x] != 0
    ensures n < |ValuesFrom(t, i)| && ValuesFrom(t, i)[n] == SlotValue(t, x)
    decreases Cap(t) - i
  {
    var head := if t.keys[i] != 0 then [SlotValue(t, i)] else [];
    var rest := ValuesFrom(t, i + 1);
    assert ValuesFrom(t, i) == head + rest;
    if x == i {
      n := 0;
      assert ValuesFrom(t, i)[0] == head[0];
    } else {
      var m := ValuesFromHas(t, i + 1, x);
      n := |head| + m;
      assert ValuesFrom(t, i)[n] == rest[m];
    }
  }

  /** Every value values_new lists comes from an occupied slot from `i`
      on. */
  lemma {:induction false} ValuesFromAt<V>(t: Table<V>, i: nat, n: nat) returns (x: nat)
    requires Shaped(t) && i <= Cap(t) && n < |ValuesFrom(t, i)|
    ensures i <= x < Cap(t) && t.keys[x] != 0 && ValuesFrom(t, i)[n] == SlotValue(t, x)
    decreases Cap(t) - i
  {
    var head := if t.keys[i] != 0 then [SlotValue(t, i)] else [];
    assert ValuesFrom(t, i) == head + ValuesFrom(t, i + 1);
    if n < |head| {
      x := i;
    } else {
      x := ValuesFromAt(t, i + 1, n - |head|);
    }
  }
}
