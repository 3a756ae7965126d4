/**
  The string dictionary of dictionary.c: parallel arrays of keys, values and cached hashes
  with holes left by deletions. Whatever the hash function, the arrays denote a map from keys
  to values, where a value may be NULL (None).
 */
module Dictionary {
  import opened Options

  const DICTMINSZ: nat := 128

  type Slots = seq<Option<string>>

  // ------------------------------------------------------------ what slot arrays denote

  ghost predicate DistinctKeys(keys: Slots) {
    forall i, j | 0 <= i < j < |keys| && keys[i].Some? :: keys[i] != keys[j]
  }

  function Count(keys: Slots): (n: nat)
    ensures n <= |keys|
  {
    if keys == [] then 0
    else Count(keys[..|keys| - 1]) + if keys[|keys| - 1].Some? then 1 else 0
  }

  /** The map from each key in the table to its value. */
  ghost function MapOf(keys: Slots, vals: Slots): map<string, Option<string>>
    requires |keys| == |vals| && DistinctKeys(keys)
  {
    map i | 0 <= i < |keys| && keys[i].Some? :: keys[i].value := vals[i]
  }

  ghost predicate HasKey(keys: Slots, k: string) {
    exists i :: 0 <= i < |keys| && keys[i] == Some(k)
  }

  lemma {:induction false} CountUpdate(keys: Slots, i: nat, k: Option<string>)
    requires i < |keys|
    ensures Count(keys[i := k]) ==
      Count(keys) - (if keys[i].Some? then 1 else 0) + (if k.Some? then 1 else 0)
  {
    var n := |keys| - 1;
    if i < n {
      assert keys[i := k][..n] == keys[..n][i := k];
      CountUpdate(keys[..n], i, k);
    } else {
      assert keys[i := k][..n] == keys[..n];
    }
  }

  /** A table without holes is full: the pigeonhole behind the insertion probe. */
  lemma {:induction false} FullCount(keys: Slots)
    requires forall i | 0 <= i < |keys| :: keys[i].Some?
    ensures Count(keys) == |keys|
  {
    if keys != [] {
      FullCount(keys[..|keys| - 1]);
    }
  }

  lemma {:induction false} EmptyCount(keys: Slots)
    requires forall i | 0 <= i < |keys| :: keys[i].None?
    ensures Count(keys) == 0
  {
    if keys != [] {
      EmptyCount(keys[..|keys| - 1]);
    }
  }

  /** Growing by empty slots keeps the count. */
  lemma {:induction false} CountPadded(keys: Slots, more: Slots)
    requires forall i | 0 <= i < |more| :: more[i].None?
    ensures Count(keys + more) == Count(keys)
  {
    if more == [] {
      assert keys + more == keys;
    } else {
      var m := more[..|more| - 1];
      assert (keys + more)[..|keys + more| - 1] == keys + m;
      CountPadded(keys, m);
    }
  }

  /** The count is the number of keys. */
  lemma {:induction false} CountIsMapSize(keys: Slots, vals: Slots)
    requires |keys| == |vals| && DistinctKeys(keys)
    ensures Count(keys) == |MapOf(keys, vals)|
  {
    if keys == [] {
      assert MapOf(keys, vals) == map[];
    } else {
      CountIsMapSize(keys[..|keys| - 1], vals[..|vals| - 1]);
      MapOfLast(keys, vals);
    }
  }

  lemma MapOfLast(keys: Slots, vals: Slots)
    requires |keys| == |vals| > 0 && DistinctKeys(keys)
    ensures var n := |keys| - 1;
            var m := MapOf(keys[..n], vals[..n]);
            if keys[n].Some? then keys[n].value !in m && MapOf(keys, vals) == m[keys[n].value := vals[n]]
            else MapOf(keys, vals) == m
  {
    var n := |keys| - 1;
    var ks, vs := keys[..n] + [None], vals[..n] + [None];
    MapOfPadded(keys[..n], vals[..n], [None]);
    if keys[n].Some? {
      forall i | 0 <= i < n + 1 ensures ks[i] != keys[n] {}
      assert !HasKey(ks, keys[n].value);
      assert ks[n := keys[n]] == keys && vs[n := vals[n]] == vals;
      MapOfInsert(ks, vs, n, keys[n].value, vals[n]);
      MapOfMiss(ks, vs, keys[n].value);
    } else {
      assert ks == keys;
      SameMap(keys, vals, vs);
    }
  }

  /** Values of empty slots do not matter. */
  lemma SameMap(keys: Slots, vals: Slots, vals': Slots)
    requires |keys| == |vals| == |vals'| && DistinctKeys(keys)
    requires forall i | 0 <= i < |keys| && keys[i].Some? :: vals[i] == vals'[i]
    ensures MapOf(keys, vals) == MapOf(keys, vals')
  {}

  lemma MapOfHit(keys: Slots, vals: Slots, i: nat)
    requires |keys| == |vals| && DistinctKeys(keys) && i < |keys| && keys[i].Some?
    ensures keys[i].value in MapOf(keys, vals) && MapOf(keys, vals)[keys[i].value] == vals[i]
  {}

  lemma MapOfMiss(keys: Slots, vals: Slots, k: string)
    requires |keys| == |vals| && DistinctKeys(keys) && !HasKey(keys, k)
    ensures k !in MapOf(keys, vals)
  {}

  lemma MapOfNewValue(keys: Slots, vals: Slots, i: nat, v: Option<string>)
    requires |keys| == |vals| && DistinctKeys(keys) && i < |keys| && keys[i].Some?
    ensures MapOf(keys, vals[i := v]) == MapOf(keys, vals)[keys[i].value := v]
  {
    var m, m' := MapOf(keys, vals), MapOf(keys, vals[i := v]);
    MapOfHit(keys, vals, i);
    assert m'.Keys == m.Keys;
  }

  lemma DistinctInsert(keys: Slots, i: nat, k: string)
    requires DistinctKeys(keys) && i < |keys| && !HasKey(keys, k)
    ensures DistinctKeys(keys[i := Some(k)])
  {}

  lemma MapOfInsert(keys: Slots, vals: Slots, i: nat, k: string, v: Option<string>)
    requires |keys| == |vals| && DistinctKeys(keys) && i < |keys| && keys[i].None? && !HasKey(keys, k)
    ensures DistinctKeys(keys[i := Some(k)])
    ensures MapOf(keys[i := Some(k)], vals[i := v]) == MapOf(keys, vals)[k := v]
  {
    var ks, vs := keys[i := Some(k)], vals[i := v];
    DistinctInsert(keys, i, k);
    hide DistinctKeys, HasKey;
    var m, m' := MapOf(keys, vals), MapOf(ks, vs);
    MapOfHit(ks, vs, i);
    forall s | s in m ensures s in m' && m'[s] == m[s] {
      var j :| 0 <= j < |keys| && keys[j].Some? && keys[j].value == s;
      assert ks[j] == keys[j] && vs[j] == vals[j];
      MapOfHit(keys, vals, j);
      MapOfHit(ks, vs, j);
    }
    forall s | s in m' ensures s == k || s in m { InsertedOrThere(keys, vals, i, k, v, s); }
  }

  lemma InsertedOrThere(keys: Slots, vals: Slots, i: nat, k: string, v: Option<string>, s: string)
    requires |keys| == |vals| && DistinctKeys(keys) && i < |keys| && DistinctKeys(keys[i := Some(k)])
    requires s in MapOf(keys[i := Some(k)], vals[i := v])
    ensures s == k || s in MapOf(keys, vals)
  {
    hide DistinctKeys;
    var ks := keys[i := Some(k)];
    var j :| 0 <= j < |ks| && ks[j].Some? && ks[j].value == s;
    if j != i { assert keys[j] == ks[j]; }
  }

  lemma MapOfRemove(keys: Slots, vals: Slots, i: nat)
    requires |keys| == |vals| && DistinctKeys(keys) && i < |keys| && keys[i].Some?
    ensures DistinctKeys(keys[i := None])
    ensures MapOf(keys[i := None], vals[i := None]) == MapOf(keys, vals) - {keys[i].value}
  {
    var ks, vs := keys[i := None], vals[i := None];
    var m, m' := MapOf(keys, vals), MapOf(ks, vs);
    forall s | s in m && s != keys[i].value ensures s in m' && m'[s] == m[s] {
      var j :| 0 <= j < |keys| && keys[j].Some? && keys[j].value == s;
      assert ks[j] == keys[j] && vs[j] == vals[j];
    }
    forall s | s in m' ensures s in m && s != keys[i].value {
      var j :| 0 <= j < |ks| && ks[j].Some? && ks[j].value == s;
      assert keys[j] == ks[j] && j != i;
      assert keys[i] != keys[j];
    }
  }

  lemma OnlySlot(keys: Slots, i: nat)
    requires DistinctKeys(keys) && i < |keys| && keys[i].Some?
    ensures forall j | 0 <= j < |keys| && j != i :: keys[j] != keys[i]
  {}

  lemma MapOfPadded(keys: Slots, vals: Slots, more: Slots)
    requires |keys| == |vals| && DistinctKeys(keys) && forall i | 0 <= i < |more| :: more[i].None?
    ensures DistinctKeys(keys + more)
    ensures MapOf(keys + more, vals + more) == MapOf(keys, vals)
  {
    var ks, vs := keys + more, vals + more;
    forall i | 0 <= i < |ks| && ks[i].Some? ensures i < |keys| && ks[i] == keys[i] && vs[i] == vals[i] {}
    var m, m' := MapOf(keys, vals), MapOf(ks, vs);
    forall s | s in m ensures s in m' && m'[s] == m[s] {
      var j :| 0 <= j < |keys| && keys[j].Some? && keys[j].value == s;
      assert ks[j] == keys[j] && vs[j] == vals[j];
    }
  }

  /** Slot i is the first empty one from slot n on, going round at the end of the table. */
  ghost predicate IsProbed(keys: Slots, n: nat, i: nat) {
    && i < |keys| && keys[i].None?
    && if n <= i then forall j | n <= j < i :: keys[j].Some?
       else (forall j | n <= j < |keys| :: keys[j].Some?) && forall j | 0 <= j < i :: keys[j].Some?
  }

  /** The slots after an insertion: as before but for the probed one. */
  ghost predicate Inserted(before: Slots, after: Slots, n: nat, k: string) {
    exists i: nat :: IsProbed(before, n, i) && after == before[i := Some(k)]
  }

  // ------------------------------------------------------------ the dictionary

  /** What dictionary_get returns: the stored value, possibly NULL, or the caller's default. */
  datatype Lookup = Found(val: Option<string>) | Default

  class Dictionary {
    const hashOf: string -> bv32
    var n: nat
    var size: nat
    var val: array<Option<string>>
    var key: array<Option<string>>
    var hash: array<bv32>

    ghost function Repr(): set<object>
      reads this
    {
      {this, val, key, hash}
    }

    ghost predicate Valid()
      reads Repr()
    {
      && val != key && hash as object != val && hash as object != key
      && 0 < size == val.Length == key.Length == hash.Length
      && DistinctKeys(key[..]) && n == Count(key[..])
      && (forall i | 0 <= i < size && key[i].Some? :: hash[i] == hashOf(key[i].value))
      && (forall i | 0 <= i < size && key[i].None? :: val[i].None? && hash[i] == 0)
    }

    ghost function Map(): map<string, Option<string>>
      requires Valid()
      reads Repr()
    {
      MapOf(key[..], val[..])
    }

    /** dictionary_new */
    constructor (hashOf: string -> bv32, size: int)
      ensures Valid() && Map() == map[] && n == 0 && this.hashOf == hashOf
      ensures this.size == (if size < 128 then 128 else size) && fresh(Repr())
    {
      var s: nat := if size < DICTMINSZ then DICTMINSZ else size;
      this.hashOf := hashOf;
      this.n, this.size := 0, s;
      val := new Option<string>[s](_ => None);
      key := new Option<string>[s](_ => None);
      hash := new bv32[s](_ => 0);
      new;
      EmptyCount(key[..]);
      assert MapOf(key[..], val[..]) == map[];
    }

    /** The search loop of get, set and unset: the slot of the key, or size. */
    method FindSlot(k: string) returns (i: nat)
      requires Valid()
      ensures i <= size
      ensures i < size ==> key[i] == Some(k)
      ensures i == size ==> !HasKey(key[..], k)
    {
      hide MapOf, Count, DistinctKeys;
      var h := hashOf(k);
      i := 0;
      while i < size
        invariant 0 <= i <= size
        invariant forall j | 0 <= j < i :: key[j] != Some(k)
      {
        if key[i].Some? && hash[i] == h && key[i].value == k {
          return;
        }
        i := i + 1;
      }
    }

    /** dictionary_get */
    method Get(k: string) returns (r: Lookup)
      requires Valid()
      ensures r == if k in Map() then Found(Map()[k]) else Default
    {
      var i := FindSlot(k);
      if i < size {
        MapOfHit(key[..], val[..], i);
        return Found(val[i]);
      }
      MapOfMiss(key[..], val[..], k);
      return Default;
    }

    /** mem_double on the three arrays */
    method Grow()
      requires Valid()
      modifies this
      ensures Valid() && Map() == old(Map()) && n == old(n) && size == 2 * old(size)
      ensures key[..] == old(key[..]) + seq(old(size), _ => None)
      ensures fresh(Repr() - {this})
    {
      hide MapOf, Count, DistinctKeys;
      ghost var more := seq(size, _ => None);
      CountPadded(key[..], more);
      MapOfPadded(key[..], val[..], more);
      var val' := Doubled(val);
      var key' := Doubled(key);
      var hash' := DoubledHash(hash);
      val, key, hash, size := val', key', hash', 2 * size;
    }

    static method Doubled(a: array<Option<string>>) returns (b: array<Option<string>>)
      ensures fresh(b) && b[..] == a[..] + seq(a.Length, _ => None)
    {
      b := new Option<string>[2 * a.Length](_ => None);
      forall i | 0 <= i < a.Length {
        b[i] := a[i];
      }
    }

    static method DoubledHash(a: array<bv32>) returns (b: array<bv32>)
      ensures fresh(b) && b[..] == a[..] + seq(a.Length, _ => 0)
    {
      b := new bv32[2 * a.Length](_ => 0);
      forall i | 0 <= i < a.Length {
        b[i] := a[i];
      }
    }

    /** Fills or empties a slot. */
    method Store(i: nat, k: Option<string>, v: Option<string>)
      requires val != key && hash as object != val && hash as object != key
      requires i < val.Length == key.Length == hash.Length
      modifies val, key, hash
      ensures key[..] == old(key[..])[i := k] && val[..] == old(val[..])[i := v]
      ensures hash[..] == old(hash[..])[i := if k.Some? then hashOf(k.value) else 0]
    {
      key[i] := k;
      val[i] := v;
      hash[i] := if k.Some? then hashOf(k.value) else 0;
    }

    /** The insertion probe: from slot n, wrapping, to the first empty slot. */
    method Probe() returns (i: nat)
      requires Valid() && n < size
      ensures IsProbed(key[..], n, i)
    {
      hide MapOf, Count, DistinctKeys;
      ghost var wrapped := false;
      i := n;
      while key[i].Some?
        invariant 0 <= i < size
        invariant !wrapped ==> n <= i && forall j | n <= j < i :: key[j].Some?
        invariant wrapped ==> i <= n && forall j | n <= j < size :: key[j].Some?
        invariant wrapped ==> forall j | 0 <= j < i :: key[j].Some?
        decreases !wrapped, size - i
      {
        if wrapped && i == n {
          FullCount(key[..]);
          assert false;
        }
        i := i + 1;
        if i == size {
          i, wrapped := 0, true;
        }
      }
    }

    /** A new value for the key in slot i. */
    method Replace(i: nat, v: Option<string>)
      requires Valid() && i < size && key[i].Some?
      modifies val
      ensures Valid() && Map() == old(Map())[key[i].value := v]
    {
      hide MapOf, Count, DistinctKeys;
      ghost var vals := val[..];
      MapOfNewValue(key[..], vals, i, v);
      val[i] := v;
      assert val[..] == vals[i := v];
    }

    /** A new key, into the slot the probe finds. */
    method Insert(k: string, v: Option<string>)
      requires Valid() && n < size && k !in Map()
      modifies this`n, val, key, hash
      ensures Valid() && Map() == old(Map())[k := v]
      ensures Inserted(old(key[..]), key[..], old(n), k)
    {
      hide MapOf, Count, DistinctKeys;
      var i := Probe();
      ghost var keys, vals := key[..], val[..];
      NotInMap(keys, vals, k);
      MapOfInsert(keys, vals, i, k, v);
      CountUpdate(keys, i, Some(k));
      Store(i, Some(k), v);
      n := n + 1;
    }

    /** dictionary_set; allocation always succeeds, so it returns 0. */
    method Set(k: string, v: Option<string>)
      requires Valid()
      modifies Repr()
      ensures Valid() && fresh(Repr() - old(Repr()))
      ensures Map() == old(Map())[k := v]
      ensures size == if k in old(Map()) || old(n) < old(size) then old(size) else 2 * old(size)
      ensures if k in old(Map()) then key[..] == old(key[..])
              else Inserted(old(key[..]) + seq(size - old(size), _ => None), key[..], old(n), k)
    {
      hide MapOf, Count, DistinctKeys;
      if n > 0 {
        var i := FindSlot(k);
        if i < size {
          MapOfHit(key[..], val[..], i);
          Replace(i, v);
          return;
        }
      } else {
        NoKeys(key[..], k);
      }
      MapOfMiss(key[..], val[..], k);
      assert key[..] + seq(0, _ => None) == key[..];
      if n == size {
        Grow();
      }
      Insert(k, v);
    }

    /** dictionary_unset */
    method Unset(k: string)
      requires Valid()
      modifies Repr()
      ensures Valid() && Repr() == old(Repr()) && size == old(size)
      ensures Map() == old(Map()) - {k}
      ensures forall i | 0 <= i < size :: key[i] == if old(key[i]) == Some(k) then None else old(key[i])
    {
      hide MapOf, Count, DistinctKeys;
      var i := FindSlot(k);
      ghost var keys, vals := key[..], val[..];
      if i == size {
        MapOfMiss(keys, vals, k);
        return;
      }
      MapOfRemove(keys, vals, i);
      OnlySlot(keys, i);
      CountUpdate(keys, i, None);
      Store(i, None, None);
      n := n - 1;
    }
  }

  lemma NoKeys(keys: Slots, k: string)
    requires Count(keys) == 0
    ensures !HasKey(keys, k)
  {
    forall i | 0 <= i < |keys| ensures keys[i] != Some(k) {
      CountUpdate(keys, i, None);
    }
  }

  lemma NotInMap(keys: Slots, vals: Slots, k: string)
    requires |keys| == |vals| && DistinctKeys(keys) && k !in MapOf(keys, vals)
    ensures !HasKey(keys, k)
  {
    forall i | 0 <= i < |keys| ensures keys[i] != Some(k) {
      if keys[i].Some? {
        MapOfHit(keys, vals, i);
      }
    }
  }
}
