/** The hash map (NPK_map) at dimension 1: two arrays of the same
    capacity, one holding a key per slot (0 for an empty slot) and one the
    value beside it, and the number of stored pairs. A key is an address;
    its home slot is the address modulo the capacity. */
module HashMaps {
  import opened Opt
  import opened Growth
  import opened SeqSpec
  import opened Probing
  import opened ProbeLaws

  class HashMap<V(0)> {
    var keys: array<nat>
    var vals: array<V>
    var len: nat

    /** The slot contents and the length, as a value. */
    function State(): Table<V>
      reads this, keys, vals
    {
      Table(keys[..], vals[..], len)
    }

    /** Two distinct arrays of the same non-zero capacity, with the length
        counting the occupied slots. */
    ghost predicate Sound()
      reads this, keys, vals
    {
      keys as object != vals && Shaped(State()) && len == Count(keys[..])
    }

    /** Between operations fewer than half of the slots are occupied. */
    ghost predicate Valid()
      reads this, keys, vals
    {
      Sound() && Probing.Valid(State())
    }

    /** sized_new: every key slot cleared, so every get misses. */
    constructor (maxlen: nat)
      requires maxlen > 0
      ensures Valid() && fresh(keys) && fresh(vals)
      ensures keys[..] == seq(maxlen, _ => 0) && vals.Length == maxlen && len == 0
      ensures Reachable(keys[..]) && forall k :: Lookup(State(), k) == None
    {
      keys := new nat[maxlen](_ => 0);
      vals := new V[maxlen];
      len := 0;
      new;
      CountZeros(maxlen);
      assert keys[..] == seq(maxlen, _ => 0);
    }

    /** A fresh map whose value slots all hold `fill`; the rebuild starts
        from one. */
    constructor Filled(maxlen: nat, fill: V)
      requires maxlen > 0
      ensures Sound() && fresh(keys) && fresh(vals)
      ensures State() == Empty(maxlen, fill)
    {
      keys := new nat[maxlen](_ => 0);
      vals := new V[maxlen](_ => fill);
      len := 0;
      new;
      CountZeros(maxlen);
      assert keys[..] == seq(maxlen, _ => 0) && vals[..] == seq(maxlen, _ => fill);
    }

    /** get: the probe from the home slot of `k`, over at most one cycle,
        stops at an empty slot (NULL) or at the slot holding `k`. */
    method Get(k: nat) returns (r: Option<V>)
      requires Shaped(State())
      ensures r == Lookup(State(), k)
      ensures Reachable(keys[..]) ==> (r.None? <==> !Stored(keys[..], k))
    {
      var cap := keys.Length;
      var idx := k % cap;
      var i := idx;
      while i < idx + cap
        invariant idx <= i <= idx + cap
        invariant FindFrom(keys[..], k, i - idx) == Find(keys[..], k)
      {
        var s := i % cap;
        assert s == Slot(k, cap, i - idx);
        if keys[s] == 0 {
          r := None;
          break;
        } else if keys[s] == k {
          r := Some(vals[s]);
          break;
        }
        i := i + 1;
      }
      if i == idx + cap {
        r := None;
      }
      if Reachable(keys[..]) {
        FindAbsent(keys[..], k);
      }
    }

    /** contains_key: the same probe as get. */
    method ContainsKey(k: nat) returns (found: bool)
      requires Shaped(State())
      ensures found <==> Lookup(State(), k).Some?
      ensures Reachable(keys[..]) ==> (found <==> Stored(keys[..], k))
    {
      var cap := keys.Length;
      var idx := k % cap;
      found := false;
      var i := idx;
      while i < idx + cap
        invariant idx <= i <= idx + cap
        invariant FindFrom(keys[..], k, i - idx) == Find(keys[..], k)
      {
        var s := i % cap;
        assert s == Slot(k, cap, i - idx);
        if keys[s] == 0 {
          break;
        } else if keys[s] == k {
          found := true;
          break;
        }
        i := i + 1;
      }
      if Reachable(keys[..]) {
        FindAbsent(keys[..], k);
      }
    }

    /** The value of slot `i` as the rebuild, values_new and equals read
        it: through get, and from the slot itself when get misses. */
    method ValueAt(i: nat) returns (v: V)
      requires Shaped(State()) && i < keys.Length
      ensures v == SlotValue(State(), i)
    {
      var r := Get(keys[i]);
      v := if r.Some? then r.value else vals[i];
    }

    /** The probe of add: from the home slot of `k`, over at most one
        cycle, the first slot that is empty or holds `k`. */
    method FreeSlot(k: Key) returns (r: Option<nat>)
      requires Shaped(State())
      ensures r == FreeOrKey(keys[..], k, 0)
    {
      var cap := keys.Length;
      var idx := k % cap;
      r := None;
      var i := idx;
      while i < idx + cap
        invariant idx <= i <= idx + cap
        invariant FreeOrKey(keys[..], k, i - idx) == FreeOrKey(keys[..], k, 0)
      {
        var s := i % cap;
        assert s == Slot(k, cap, i - idx);
        if keys[s] == 0 || keys[s] == k {
          r := Some(s);
          break;
        }
        i := i + 1;
      }
    }

    /** The first half of add: `v` is written beside `k` when the probe
        finds `k`, and `k` and `v` go into the empty slot it finds
        otherwise. */
    method Insert(k: Key, v: V)
      requires Sound()
      modifies this, keys, vals
      ensures Sound() && keys == old(keys) && vals == old(vals)
      ensures State() == Put(old(State()), k, v)
    {
      ghost var t := State();
      var r := FreeSlot(k);
      if r.Some? {
        var s := r.value;
        if keys[s] == 0 {
          CountUpdate(t.keys, s, k);
          keys[s] := k;
          vals[s] := v;
          len := len + 1;
          assert keys[..] == t.keys[s := k] && vals[..] == t.vals[s := v];
        } else {
          vals[s] := v;
          assert keys[..] == t.keys && vals[..] == t.vals[s := v];
        }
      }
    }

    /** The rebuild inside add: a map of capacity `cap` receives every
        stored pair in slot order (the order keys_new lists them), each
        value read by ValueAt. */
    method Rebuilt(cap: nat) returns (nm: HashMap<V>)
      requires Sound() && cap > 0
      ensures fresh(nm) && fresh(nm.keys) && fresh(nm.vals) && nm.Sound()
      ensures nm.State() == Rebuild(State(), cap)
    {
      ghost var t := State();
      nm := new HashMap.Filled(cap, vals[0]);
      ghost var total := Rebuild(t, cap);
      assert Reinsert(t, nm.State(), 0) == total;
      ghost var nkeys, nvals := nm.keys, nm.vals;
      for i := 0 to keys.Length
        modifies nm, nkeys, nvals
        invariant nm.keys == nkeys && nm.vals == nvals && nm.Sound()
        invariant Reinsert(t, nm.State(), i) == total
      {
        MoveSlot(nm, i);
      }
    }

    /** The grown map's storage replaces this map's. */
    method Rehash()
      requires Sound()
      modifies this
      ensures Sound() && fresh(keys) && fresh(vals)
      ensures State() == Grow(old(State()))
    {
      var nm := Rebuilt(Grown(keys.Length));
      keys, vals, len := nm.keys, nm.vals, nm.len;
    }

    /** One step of the rebuild: the pair in slot `i`, if any, is added to
        `nm`. */
    method MoveSlot(nm: HashMap<V>, i: nat)
      requires Sound() && nm.Sound() && i < keys.Length
      requires nm != this && nm.keys != keys && nm.vals != vals
      requires nm.keys as object != vals && nm.vals as object != keys
      modifies nm, nm.keys, nm.vals
      ensures nm.Sound() && nm.keys == old(nm.keys) && nm.vals == old(nm.vals)
      ensures Reinsert(State(), old(nm.State()), i) == Reinsert(State(), nm.State(), i + 1)
    {
      if keys[i] != 0 {
        var v := ValueAt(i);
        nm.Insert(keys[i], v);
      }
    }

    /** add: the insertion, then, when a new key brought the load to one
        half or more, rebuilds until the load is below one half again. */
    method Add(k: Key, v: V)
      requires Valid()
      modifies this, keys, vals
      ensures Valid()
      ensures State() == Added(old(State()), k, v)
    {
      var before := len;
      Insert(k, v);
      if len != before {
        while 2 * len >= keys.Length
          invariant Sound() && Settle(State()) == Added(old(State()), k, v)
          decreases 2 * len + 1 - keys.Length
        {
          Rehash();
        }
      }
    }

    /** The probe of remove: from the home slot of `k`, over the whole
        cycle and past empty slots, the first slot holding `k`. */
    method HoldingSlot(k: Key) returns (r: Option<nat>)
      requires Shaped(State())
      ensures r == Holding(keys[..], k, 0)
    {
      var cap := keys.Length;
      var idx := k % cap;
      r := None;
      var i := idx;
      while i < idx + cap
        invariant idx <= i <= idx + cap
        invariant Holding(keys[..], k, i - idx) == Holding(keys[..], k, 0)
      {
        var s := i % cap;
        assert s == Slot(k, cap, i - idx);
        if keys[s] == k {
          r := Some(s);
          break;
        }
        i := i + 1;
      }
    }

    /** remove: clears the slot the probe finds and drops the length; the
        value slot is left as it is. */
    method Remove(k: Key)
      requires Valid()
      modifies this, keys
      ensures Valid() && keys == old(keys) && vals == old(vals)
      ensures State() == Removed(old(State()), k)
    {
      ghost var t := State();
      var r := HoldingSlot(k);
      if r.Some? {
        var s := r.value;
        CountUpdate(t.keys, s, 0);
        keys[s] := 0;
        len := len - 1;
        assert keys[..] == t.keys[s := 0];
      }
    }

    /** The repaired removal: remove, then rebuild the table at the same
        capacity, so that no key is cut off from its home slot. */
    method RemoveRepaired(k: Key)
      requires Valid()
      modifies this, keys
      ensures Valid() && fresh(keys) && fresh(vals)
      ensures State() == RemovedRebuilt(old(State()), k)
    {
      Remove(k);
      var nm := Rebuilt(keys.Length);
      keys, vals, len := nm.keys, nm.vals, nm.len;
    }

    /** keys_new: the stored keys in slot order. */
    method KeysNew() returns (ks: seq<nat>)
      requires Sound()
      ensures ks == KeysFrom(keys[..], 0) && |ks| == len
      ensures forall x :: x in ks <==> Stored(keys[..], x)
    {
      ks := [];
      ghost var total := KeysFrom(keys[..], 0);
      assert keys[..][0..] == keys[..];
      for i := 0 to keys.Length
        invariant ks + KeysFrom(keys[..], i) == total
      {
        KeysFromStep(ks, keys[..], i);
        if keys[i] != 0 {
          ks := ks + [keys[i]];
        }
      }
    }

    /** values_new: the value of every stored pair, in slot order. */
    method ValuesNew() returns (vs: seq<V>)
      requires Sound()
      ensures vs == ValuesFrom(State(), 0) && |vs| == len
    {
      vs := [];
      ghost var t := State();
      ghost var total := ValuesFrom(t, 0);
      for i := 0 to keys.Length
        invariant vs + ValuesFrom(t, i) == total
      {
        ValuesFromStep(vs, t, i);
        if keys[i] != 0 {
          var v := ValueAt(i);
          vs := vs + [v];
        }
      }
    }

    /** contains_value: builds values_new and looks for a value matching
        `val`; true exactly when some occupied slot holds one. */
    method ContainsValue(val: V, eq: (V, V) -> bool) returns (found: bool)
      requires Sound()
      ensures found <==> exists x :: 0 <= x < keys.Length && keys[x] != 0 && eq(SlotValue(State(), x), val)
    {
      var vs := ValuesNew();
      found := false;
      for n := 0 to |vs|
        invariant !found
        invariant forall m :: 0 <= m < n ==> !eq(vs[m], val)
      {
        if eq(vs[n], val) {
          var x := ValuesFromAt(State(), 0, n);
          found := true;
          return;
        }
      }
      forall x | 0 <= x < keys.Length && keys[x] != 0
        ensures !eq(SlotValue(State(), x), val)
      {
        var n := ValuesFromHas(State(), 0, x);
      }
    }

    /** equals: different capacities are never equal; otherwise every slot
        must hold the same key in both maps, and where a key is stored the
        two values must match. */
    method Equals(other: HashMap<V>, eq: (V, V) -> bool) returns (same: bool)
      requires Sound() && other.Sound()
      ensures same <==> Equal(State(), other.State(), eq)
    {
      if keys.Length != other.keys.Length {
        return false;
      }
      ghost var t1, t2 := State(), other.State();
      for i := 0 to keys.Length
        invariant forall x :: 0 <= x < i ==> t1.keys[x] == t2.keys[x]
        invariant forall x :: 0 <= x < i && t1.keys[x] != 0 ==> eq(SlotValue(t1, x), SlotValue(t2, x))
      {
        if keys[i] != other.keys[i] {
          return false;
        } else if keys[i] != 0 {
          var v1 := ValueAt(i);
          var v2 := other.ValueAt(i);
          if !eq(v1, v2) {
            return false;
          }
        }
      }
      assert t1.keys == t2.keys;
      return true;
    }

    /** copy_new: a map with its own arrays and the same slots. */
    method Copy() returns (c: HashMap<V>)
      requires Valid()
      ensures fresh(c) && fresh(c.keys) && fresh(c.vals)
      ensures c.Valid() && c.State() == State()
    {
      c := new HashMap(keys.Length);
      forall i | 0 <= i < keys.Length {
        c.keys[i] := keys[i];
      }
      forall i | 0 <= i < vals.Length {
        c.vals[i] := vals[i];
      }
      c.len := len;
      assert c.keys[..] == keys[..] && c.vals[..] == vals[..];
      assert c.State() == State();
    }
  }
}
