/** The `CuckooHashMap` (`cuckoo.cpp`, `hash.h`, and the Go port
    `cuckoo.go`, which behaves the same way).

    Two tables of equal length (the capacity).  A key lives either in
    `table1` at `hash1` or in `table2` at `hash2`, so a lookup inspects
    exactly two slots.  Inserting a new key displaces the `table1`
    occupant into `table2`, whose occupant is displaced in turn and
    reinserted, for at most 500 rounds.  The hash function (`std::hash`,
    FNV-1a) is a parameter `hash`. */
module Cuckoo {
  import opened Wrappers
  import opened Slots

  const DEFAULT_CAPACITY: nat := 101

  /** `MAX_ITERATIONS` / `maxCuckooIterations`. */
  const MAX_ITERATIONS: nat := 500

  datatype CuckooMap<K, V> = CuckooMap(t1: seq<Slot<K, V>>, t2: seq<Slot<K, V>>, count: int)

  /** The constructor: two tables of `capacity` free slots. */
  function New<K, V>(capacity: nat): (m: CuckooMap<K, V>)
  {
    CuckooMap(seq(capacity, _ => Free), seq(capacity, _ => Free), 0)
  }

  /** Go `NewCuckooHashMap`: a non-positive capacity becomes 101. */
  function GoNew<K, V>(capacity: int): (m: CuckooMap<K, V>)
  {
    New(if capacity <= 0 then DEFAULT_CAPACITY else capacity)
  }

  /** A new map has two tables of the requested length, 101 for a
      non-positive request, every slot free, and count 0. */
  lemma GoNewEmpty<K, V>(capacity: int)
    ensures |GoNew<K, V>(capacity).t1| == |GoNew<K, V>(capacity).t2|
              == (if capacity <= 0 then DEFAULT_CAPACITY else capacity)
    ensures GoNew<K, V>(capacity).count == 0
    ensures forall j | 0 <= j < |GoNew<K, V>(capacity).t1| ::
              GoNew<K, V>(capacity).t1[j].Free? && GoNew<K, V>(capacity).t2[j].Free?
  {
  }

  /** `hash1`: the slot in `table1`. */
  function Hash1(h: nat, cap: nat): (r: nat)
    requires cap >= 1
    ensures r < cap
  {
    h % cap
  }

  /** `hash2`: the slot in `table2`, from the quotient of the same hash. */
  function Hash2(h: nat, cap: nat): (r: nat)
    requires cap >= 1
    ensures r < cap
  {
    (h / cap) % cap
  }

  /** Two tables of one capacity, at least 1 (`hash1` divides by it). */
  ghost predicate Shaped<K, V>(t1: seq<Slot<K, V>>, t2: seq<Slot<K, V>>)
  {
    |t1| == |t2| >= 1
  }

  /** The two-slot lookup shared by `get`, `contains`, `remove` and `put`:
      `table1[hash1]` first, then `table2[hash2]`. */
  function Lookup<K(==), V>(t1: seq<Slot<K, V>>, t2: seq<Slot<K, V>>, hash: K -> nat, k: K): (r: Option<V>)
    requires |t1| == |t2| >= 1
    ensures r.Some? ==> Used(k, r.value) in t1 || Used(k, r.value) in t2
  {
    var i1, i2 := Hash1(hash(k), |t1|), Hash2(hash(k), |t1|);
    if t1[i1].Used? && t1[i1].key == k then Some(t1[i1].value)
    else if t2[i2].Used? && t2[i2].key == k then Some(t2[i2].value)
    else None
  }

  // ---------------------------------------------------------------------
  // Invariants

  /** Every key sits at its own slot: `hash1` in `table1`, `hash2` in
      `table2`. */
  ghost predicate Placed<K, V>(t1: seq<Slot<K, V>>, t2: seq<Slot<K, V>>, hash: K -> nat)
  {
    Shaped(t1, t2)
    && (forall j | 0 <= j < |t1| && t1[j].Used? :: Hash1(hash(t1[j].key), |t1|) == j)
    && (forall j | 0 <= j < |t2| && t2[j].Used? :: Hash2(hash(t2[j].key), |t1|) == j)
  }

  /** No key is in both tables. */
  ghost predicate Disjoint<K, V>(t1: seq<Slot<K, V>>, t2: seq<Slot<K, V>>)
  {
    Keys(t1) !! Keys(t2)
  }

  /** The map's invariant: keys placed, no key twice, and `count` the
      number of occupied slots of both tables. */
  ghost predicate Valid<K, V>(m: CuckooMap<K, V>, hash: K -> nat)
  {
    Placed(m.t1, m.t2, hash) && Disjoint(m.t1, m.t2)
    && m.count == CountUsed(m.t1) + CountUsed(m.t2)
  }

  /** With keys placed, the two-slot lookup finds exactly the stored
      keys. */
  lemma LookupIffStored<K, V>(t1: seq<Slot<K, V>>, t2: seq<Slot<K, V>>, hash: K -> nat, k: K)
    requires Placed(t1, t2, hash)
    ensures Lookup(t1, t2, hash, k).Some? <==> k in Keys(t1) + Keys(t2)
  {
    if k in Keys(t1) {
      var j :| 0 <= j < |t1| && t1[j].Used? && t1[j].key == k;
    } else if k in Keys(t2) {
      var j :| 0 <= j < |t2| && t2[j].Used? && t2[j].key == k;
    }
  }

  // ---------------------------------------------------------------------
  // Displacement

  /** The outcome of `insertInternal`: the tables as they were left, and
      whether the key chain came to rest (`false`: the "too many
      iterations" exception, thrown with the tables already changed). */
  datatype Placement<K, V> = Placement(t1: seq<Slot<K, V>>, t2: seq<Slot<K, V>>, ok: bool)

  /** `insertInternal(key, value, iterations)`. */
  function InsertInternal<K(==), V>(t1: seq<Slot<K, V>>, t2: seq<Slot<K, V>>, hash: K -> nat, k: K, v: V, iterations: nat): (r: Placement<K, V>)
    requires Shaped(t1, t2)
    ensures Shaped(r.t1, r.t2) && |r.t1| == |t1|
    ensures iterations >= MAX_ITERATIONS ==> r == Placement(t1, t2, false)
    decreases MAX_ITERATIONS - iterations
  {
    if iterations >= MAX_ITERATIONS then Placement(t1, t2, false)
    else
      var cap := |t1|;
      var i1 := Hash1(hash(k), cap);
      if t1[i1].Free? || t1[i1].key == k then Placement(t1[i1 := Used(k, v)], t2, true)
      else
        var out := t1[i1];
        var u1 := t1[i1 := Used(k, v)];
        var i2 := Hash2(hash(out.key), cap);
        if t2[i2].Free? || t2[i2].key == out.key then Placement(u1, t2[i2 := out], true)
        else InsertInternal(u1, t2[i2 := out], hash, t2[i2].key, t2[i2].value, iterations + 1)
  }

  /** The lookups after: `k` maps to `v` and every other key as before. */
  ghost predicate Stores<K(!new), V>(t1: seq<Slot<K, V>>, t2: seq<Slot<K, V>>, u1: seq<Slot<K, V>>, u2: seq<Slot<K, V>>,
                                     hash: K -> nat, k: K, v: V)
  {
    Shaped(t1, t2) && Shaped(u1, u2)
    && forall q :: Lookup(u1, u2, hash, q) == if q == k then Some(v) else Lookup(t1, t2, hash, q)
  }

  /** The lookups after: as `Stores`, except that key `d` — the new key or
      one that was stored — is gone. */
  ghost predicate StoresLosing<K(!new), V>(t1: seq<Slot<K, V>>, t2: seq<Slot<K, V>>, u1: seq<Slot<K, V>>, u2: seq<Slot<K, V>>,
                                           hash: K -> nat, k: K, v: V, d: K)
  {
    Shaped(t1, t2) && Shaped(u1, u2)
    && (d == k || Lookup(t1, t2, hash, d).Some?)
    && Lookup(u1, u2, hash, d) == None
    && forall q | q != d :: Lookup(u1, u2, hash, q) == if q == k then Some(v) else Lookup(t1, t2, hash, q)
  }

  /** Writing an unstored key into its `table1` slot: the key is found,
      the slot's previous key (if any) is no longer found, and the rest is
      unchanged. */
  lemma WriteFirst<K(!new), V>(t1: seq<Slot<K, V>>, t2: seq<Slot<K, V>>, hash: K -> nat, k: K, v: V)
    requires Placed(t1, t2, hash) && Disjoint(t1, t2) && Lookup(t1, t2, hash, k) == None
    ensures var i1 := Hash1(hash(k), |t1|);
      var u1 := t1[i1 := Used(k, v)];
      Placed(u1, t2, hash) && Disjoint(u1, t2)
      && forall q :: Lookup(u1, t2, hash, q) ==
           if q == k then Some(v)
           else if t1[i1].Used? && q == t1[i1].key then None
           else Lookup(t1, t2, hash, q)
  {
    var i1 := Hash1(hash(k), |t1|);
    var u1 := t1[i1 := Used(k, v)];
    LookupIffStored(t1, t2, hash, k);
    forall q ensures q in Keys(u1) ==> q == k || q in Keys(t1) {
      if q in Keys(u1) {
        var j :| 0 <= j < |u1| && u1[j].Used? && u1[j].key == q;
        if j != i1 { assert t1[j] == u1[j]; }
      }
    }
    forall q ensures Lookup(u1, t2, hash, q) ==
        if q == k then Some(v)
        else if t1[i1].Used? && q == t1[i1].key then None
        else Lookup(t1, t2, hash, q)
    {
      if q != k && t1[i1].Used? && q == t1[i1].key {
        assert q in Keys(t1);
        var i2 := Hash2(hash(q), |t1|);
        assert t2[i2].Used? && t2[i2].key == q ==> q in Keys(t2);
      }
    }
  }

  /** Writing a key found in neither table into its `table2` slot: the key
      is found, the slot's previous key (if any) is no longer found, and
      the rest is unchanged. */
  lemma WriteSecond<K(!new), V>(t1: seq<Slot<K, V>>, t2: seq<Slot<K, V>>, hash: K -> nat, k: K, v: V)
    requires Placed(t1, t2, hash) && Disjoint(t1, t2) && Lookup(t1, t2, hash, k) == None
    ensures var i2 := Hash2(hash(k), |t1|);
      var u2 := t2[i2 := Used(k, v)];
      Placed(t1, u2, hash) && Disjoint(t1, u2)
      && forall q :: Lookup(t1, u2, hash, q) ==
           if q == k then Some(v)
           else if t2[i2].Used? && q == t2[i2].key then None
           else Lookup(t1, t2, hash, q)
  {
    var i2 := Hash2(hash(k), |t1|);
    var u2 := t2[i2 := Used(k, v)];
    LookupIffStored(t1, t2, hash, k);
    forall q ensures q in Keys(u2) ==> q == k || q in Keys(t2) {
      if q in Keys(u2) {
        var j :| 0 <= j < |u2| && u2[j].Used? && u2[j].key == q;
        if j != i2 { assert t2[j] == u2[j]; }
      }
    }
    forall q ensures Lookup(t1, u2, hash, q) ==
        if q == k then Some(v)
        else if t2[i2].Used? && q == t2[i2].key then None
        else Lookup(t1, t2, hash, q)
    {
      if q != k && t2[i2].Used? && q == t2[i2].key {
        assert q in Keys(t2);
        var i1 := Hash1(hash(q), |t1|);
        assert t1[i1].Used? && t1[i1].key == q ==> q in Keys(t1);
      }
    }
  }

  /** One displacement round on a key not stored: `k` goes into `table1`,
      its occupant into `table2`, and that slot's occupant `next` is the
      key left to place. */
  lemma DisplaceStep<K(!new), V>(t1: seq<Slot<K, V>>, t2: seq<Slot<K, V>>, hash: K -> nat, k: K, v: V)
    requires Placed(t1, t2, hash) && Disjoint(t1, t2) && Lookup(t1, t2, hash, k) == None
    requires t1[Hash1(hash(k), |t1|)].Used?
    ensures var i1 := Hash1(hash(k), |t1|);
      var out := t1[i1];
      var u1 := t1[i1 := Used(k, v)];
      var i2 := Hash2(hash(out.key), |t1|);
      var u2 := t2[i2 := out];
      out.key != k && Lookup(t1, t2, hash, out.key) == Some(out.value)
      && Placed(u1, u2, hash) && Disjoint(u1, u2)
      && CountUsed(u1) == CountUsed(t1)
      && CountUsed(u2) == CountUsed(t2) + (if t2[i2].Free? then 1 else 0)
      && (t2[i2].Used? ==> t2[i2].key != out.key && Lookup(t1, t2, hash, t2[i2].key) == Some(t2[i2].value))
      && forall q :: Lookup(u1, u2, hash, q) ==
           if q == k then Some(v)
           else if t2[i2].Used? && q == t2[i2].key then None
           else Lookup(t1, t2, hash, q)
  {
    var i1 := Hash1(hash(k), |t1|);
    var out := t1[i1];
    var u1 := t1[i1 := Used(k, v)];
    var i2 := Hash2(hash(out.key), |t1|);
    WriteFirst(t1, t2, hash, k, v);
    assert out.key in Keys(t1);
    assert Lookup(u1, t2, hash, out.key) == None;
    WriteSecond(u1, t2, hash, out.key, out.value);
    EntriesOfUpdate(t1, i1, Used(k, v));
    EntriesOfUpdate(t2, i2, out);
    if t2[i2].Used? {
      var nk := t2[i2].key;
      assert nk in Keys(t2);
      assert nk !in Keys(t1);
      assert Hash2(hash(nk), |t1|) == i2;
    }
  }

  /** `insertInternal` of a key not stored keeps the invariant; when the
      chain comes to rest the key maps to `v` and one more slot is
      occupied; when the rounds run out exactly one key — the new one or
      one that was stored — is lost and the number of occupied slots is
      unchanged. */
  lemma {:induction false} InsertInternalSpec<K(!new), V>(t1: seq<Slot<K, V>>, t2: seq<Slot<K, V>>, hash: K -> nat, k: K, v: V, iterations: nat)
    requires Placed(t1, t2, hash) && Disjoint(t1, t2) && Lookup(t1, t2, hash, k) == None
    ensures var r := InsertInternal(t1, t2, hash, k, v, iterations);
      Placed(r.t1, r.t2, hash) && Disjoint(r.t1, r.t2)
      && CountUsed(r.t1) + CountUsed(r.t2) == CountUsed(t1) + CountUsed(t2) + (if r.ok then 1 else 0)
      && (r.ok ==> Stores(t1, t2, r.t1, r.t2, hash, k, v))
      && (!r.ok ==> exists d :: StoresLosing(t1, t2, r.t1, r.t2, hash, k, v, d))
    decreases MAX_ITERATIONS - iterations
  {
    var r := InsertInternal(t1, t2, hash, k, v, iterations);
    if iterations >= MAX_ITERATIONS {
      assert StoresLosing(t1, t2, r.t1, r.t2, hash, k, v, k);
    } else {
      var i1 := Hash1(hash(k), |t1|);
      if t1[i1].Free? {
        WriteFirst(t1, t2, hash, k, v);
        EntriesOfUpdate(t1, i1, Used(k, v));
      } else {
        DisplaceStep(t1, t2, hash, k, v);
        var out := t1[i1];
        var u1 := t1[i1 := Used(k, v)];
        var i2 := Hash2(hash(out.key), |t1|);
        var u2 := t2[i2 := out];
        if t2[i2].Used? {
          var nk, nv := t2[i2].key, t2[i2].value;
          InsertInternalSpec(u1, u2, hash, nk, nv, iterations + 1);
          assert r == InsertInternal(u1, u2, hash, nk, nv, iterations + 1);
          if r.ok {
            forall q ensures Lookup(r.t1, r.t2, hash, q) == if q == k then Some(v) else Lookup(t1, t2, hash, q) {
              assert Lookup(r.t1, r.t2, hash, q) == if q == nk then Some(nv) else Lookup(u1, u2, hash, q);
            }
          } else {
            var d :| StoresLosing(u1, u2, r.t1, r.t2, hash, nk, nv, d);
            forall q | q != d ensures Lookup(r.t1, r.t2, hash, q) == if q == k then Some(v) else Lookup(t1, t2, hash, q) {
              assert Lookup(r.t1, r.t2, hash, q) == if q == nk then Some(nv) else Lookup(u1, u2, hash, q);
            }
            assert StoresLosing(t1, t2, r.t1, r.t2, hash, k, v, d);
          }
        }
      }
    }
  }

  // ---------------------------------------------------------------------
  // Operations

  /** `put`: "full" at `count >= 2 * capacity` before anything else; an
      existing key gets the new value in its slot; a new key goes through
      `insertInternal`, and `count` grows only when that succeeds.  A
      failed `insertInternal` leaves the tables as it changed them. */
  function Put<K(==), V>(m: CuckooMap<K, V>, hash: K -> nat, k: K, v: V): (r: (CuckooMap<K, V>, Result<()>))
    requires Shaped(m.t1, m.t2)
    ensures Shaped(r.0.t1, r.0.t2) && |r.0.t1| == |m.t1|
    ensures r.1 == Err(Full) <==> m.count >= 2 * |m.t1|
    ensures r.1 == Err(Full) ==> r.0 == m
    ensures r.1.Err? ==> r.1 == Err(Full) || r.1 == Err(TooManyIterations)
    ensures r.0.count == m.count + (if r.1.Ok? && Lookup(m.t1, m.t2, hash, k).None? then 1 else 0)
  {
    if m.count >= 2 * |m.t1| then (m, Err(Full))
    else if Contains(m, hash, k) then
      var i1, i2 := Hash1(hash(k), |m.t1|), Hash2(hash(k), |m.t1|);
      if m.t1[i1].Used? && m.t1[i1].key == k then (m.(t1 := m.t1[i1 := Used(k, v)]), Ok(()))
      else (m.(t2 := m.t2[i2 := Used(k, v)]), Ok(()))
    else
      var p := InsertInternal(m.t1, m.t2, hash, k, v, 0);
      if p.ok then (CuckooMap(p.t1, p.t2, m.count + 1), Ok(()))
      else (CuckooMap(p.t1, p.t2, m.count), Err(TooManyIterations))
  }

  /** `get`: the value in one of the key's two slots, or "not found". */
  function Get<K(==), V>(m: CuckooMap<K, V>, hash: K -> nat, k: K): (r: Result<V>)
    requires Shaped(m.t1, m.t2)
    ensures r.Err? ==> r.failure == KeyNotFound
    ensures r.Ok? ==> Used(k, r.value) in m.t1 || Used(k, r.value) in m.t2
  {
    match Lookup(m.t1, m.t2, hash, k)
    case Some(v) => Ok(v)
    case None => Err(KeyNotFound)
  }

  /** `contains`. */
  function Contains<K(==), V>(m: CuckooMap<K, V>, hash: K -> nat, k: K): (b: bool)
    requires Shaped(m.t1, m.t2)
    ensures b <==> Get(m, hash, k).Ok?
  {
    Lookup(m.t1, m.t2, hash, k).Some?
  }

  /** `remove`: frees the key's slot in `table1`, else in `table2`, and
      decrements `count`; `false` when it is in neither. */
  function Remove<K(==), V>(m: CuckooMap<K, V>, hash: K -> nat, k: K): (r: (CuckooMap<K, V>, bool))
    requires Shaped(m.t1, m.t2)
    ensures Shaped(r.0.t1, r.0.t2) && |r.0.t1| == |m.t1|
    ensures r.1 <==> Contains(m, hash, k)
    ensures !r.1 ==> r.0 == m
  {
    var i1, i2 := Hash1(hash(k), |m.t1|), Hash2(hash(k), |m.t1|);
    if m.t1[i1].Used? && m.t1[i1].key == k then
      (CuckooMap(m.t1[i1 := Free], m.t2, m.count - 1), true)
    else if m.t2[i2].Used? && m.t2[i2].key == k then
      (CuckooMap(m.t1, m.t2[i2 := Free], m.count - 1), true)
    else (m, false)
  }

  /** `clear`: both tables free, `count` 0, capacity kept. */
  function Clear<K, V>(m: CuckooMap<K, V>): (r: CuckooMap<K, V>)
    ensures |r.t1| == |m.t1| && |r.t2| == |m.t2| && r.count == 0
    ensures Keys(r.t1) == {} && Keys(r.t2) == {}
  {
    CuckooMap(seq(|m.t1|, _ => Free), seq(|m.t2|, _ => Free), 0)
  }

  function Size<K, V>(m: CuckooMap<K, V>): int
  {
    m.count
  }

  /** C++ `empty`. */
  function IsEmpty<K, V>(m: CuckooMap<K, V>): (b: bool)
    ensures m.count == CountUsed(m.t1) + CountUsed(m.t2) ==> (b <==> Keys(m.t1) + Keys(m.t2) == {})
  {
    NoEntriesNoKeys(m.t1);
    NoEntriesNoKeys(m.t2);
    m.count == 0
  }

  // ---------------------------------------------------------------------
  // Properties

  /** A new map is valid and finds nothing. */
  lemma NewValid<K, V>(capacity: nat, hash: K -> nat)
    requires capacity >= 1
    ensures Valid(New<K, V>(capacity), hash)
    ensures forall q :: Lookup(New<K, V>(capacity).t1, New<K, V>(capacity).t2, hash, q) == None
  {
    ClearedHasNoEntries(New<K, V>(capacity).t1);
    ClearedHasNoEntries(New<K, V>(capacity).t2);
  }

  /** `clear` gives a valid map in which `contains` is false for every
      key. */
  lemma ClearValid<K, V>(m: CuckooMap<K, V>, hash: K -> nat)
    requires Shaped(m.t1, m.t2)
    ensures Valid(Clear(m), hash) && Size(Clear(m)) == 0
    ensures forall q :: !Contains(Clear(m), hash, q)
  {
    NewValid<K, V>(|m.t1|, hash);
  }

  /** `size` counts the occupied slots of both tables, and `empty` is true
      exactly when no key is stored. */
  lemma SizeMeans<K, V>(m: CuckooMap<K, V>, hash: K -> nat)
    requires Valid(m, hash)
    ensures Size(m) == CountUsed(m.t1) + CountUsed(m.t2)
    ensures IsEmpty(m) <==> Keys(m.t1) + Keys(m.t2) == {}
  {
    NoEntriesNoKeys(m.t1);
    NoEntriesNoKeys(m.t2);
  }

  /** `get` and `contains` answer for exactly the stored keys. */
  lemma GetIffStored<K, V>(m: CuckooMap<K, V>, hash: K -> nat, k: K)
    requires Valid(m, hash)
    ensures Get(m, hash, k).Ok? <==> k in Keys(m.t1) + Keys(m.t2)
    ensures Contains(m, hash, k) <==> k in Keys(m.t1) + Keys(m.t2)
  {
    LookupIffStored(m.t1, m.t2, hash, k);
  }

  /** `put` of a key already stored: its value is replaced in place,
      `count` and the other keys unchanged. */
  lemma PutExisting<K(!new), V>(m: CuckooMap<K, V>, hash: K -> nat, k: K, v: V)
    requires Valid(m, hash) && Contains(m, hash, k) && m.count < 2 * |m.t1|
    ensures Put(m, hash, k, v).1 == Ok(())
    ensures Valid(Put(m, hash, k, v).0, hash) && Put(m, hash, k, v).0.count == m.count
    ensures Stores(m.t1, m.t2, Put(m, hash, k, v).0.t1, Put(m, hash, k, v).0.t2, hash, k, v)
  {
    var r := Put(m, hash, k, v).0;
    var i1, i2 := Hash1(hash(k), |m.t1|), Hash2(hash(k), |m.t1|);
    if m.t1[i1].Used? && m.t1[i1].key == k {
      EntriesOfUpdate(m.t1, i1, Used(k, v));
      assert Keys(r.t1) == Keys(m.t1) by {
        forall q | q in Keys(r.t1) ensures q in Keys(m.t1) {
          var j :| 0 <= j < |r.t1| && r.t1[j].Used? && r.t1[j].key == q;
          if j != i1 { assert m.t1[j] == r.t1[j]; }
        }
        forall q | q in Keys(m.t1) ensures q in Keys(r.t1) {
          var j :| 0 <= j < |m.t1| && m.t1[j].Used? && m.t1[j].key == q;
          assert r.t1[j].key == q;
        }
      }
    } else {
      EntriesOfUpdate(m.t2, i2, Used(k, v));
      assert Keys(r.t2) == Keys(m.t2) by {
        forall q | q in Keys(r.t2) ensures q in Keys(m.t2) {
          var j :| 0 <= j < |r.t2| && r.t2[j].Used? && r.t2[j].key == q;
          if j != i2 { assert m.t2[j] == r.t2[j]; }
        }
        forall q | q in Keys(m.t2) ensures q in Keys(r.t2) {
          var j :| 0 <= j < |m.t2| && m.t2[j].Used? && m.t2[j].key == q;
          assert r.t2[j].key == q;
        }
      }
      forall q ensures Lookup(r.t1, r.t2, hash, q) == if q == k then Some(v) else Lookup(m.t1, m.t2, hash, q) {
        if q != k && Hash2(hash(q), |m.t1|) == i2 {
          assert m.t2[i2].key == k;
        }
      }
    }
  }

  /** `put` of a new key keeps the map valid, whatever the outcome.  On
      success the key maps to `v`, every other key is unchanged and
      `count` grows by one; when the displacement rounds run out, `count`
      is unchanged and exactly one key (possibly the new one) is lost. */
  lemma PutNew<K(!new), V>(m: CuckooMap<K, V>, hash: K -> nat, k: K, v: V)
    requires Valid(m, hash) && !Contains(m, hash, k) && m.count < 2 * |m.t1|
    ensures Valid(Put(m, hash, k, v).0, hash)
    ensures Put(m, hash, k, v).1 == Ok(()) ==>
      Put(m, hash, k, v).0.count == m.count + 1
      && Stores(m.t1, m.t2, Put(m, hash, k, v).0.t1, Put(m, hash, k, v).0.t2, hash, k, v)
    ensures Put(m, hash, k, v).1 == Err(TooManyIterations) ==>
      Put(m, hash, k, v).0.count == m.count
      && exists d :: StoresLosing(m.t1, m.t2, Put(m, hash, k, v).0.t1, Put(m, hash, k, v).0.t2, hash, k, v, d)
  {
    InsertInternalSpec(m.t1, m.t2, hash, k, v, 0);
  }

  /** `put` keeps the invariant in every case, including a failed
      displacement chain. */
  lemma PutKeepsValid<K(!new), V>(m: CuckooMap<K, V>, hash: K -> nat, k: K, v: V)
    requires Valid(m, hash)
    ensures Valid(Put(m, hash, k, v).0, hash)
  {
    if m.count < 2 * |m.t1| {
      if Contains(m, hash, k) { PutExisting(m, hash, k, v); } else { PutNew(m, hash, k, v); }
    }
  }

  /** A successful `put` makes `get` return the new value. */
  lemma PutThenGet<K(!new), V>(m: CuckooMap<K, V>, hash: K -> nat, k: K, v: V)
    requires Valid(m, hash) && Put(m, hash, k, v).1.Ok?
    ensures Get(Put(m, hash, k, v).0, hash, k) == Ok(v)
  {
    if Contains(m, hash, k) { PutExisting(m, hash, k, v); } else { PutNew(m, hash, k, v); }
    var r := Put(m, hash, k, v).0;
    assert Lookup(r.t1, r.t2, hash, k) == Some(v);
  }

  /** `remove` keeps the map valid, drops exactly the removed key, and
      decrements `count` exactly when the key was stored. */
  lemma RemoveSpec<K(!new), V>(m: CuckooMap<K, V>, hash: K -> nat, k: K)
    requires Valid(m, hash)
    ensures var r := Remove(m, hash, k);
      Valid(r.0, hash)
      && r.0.count == m.count - (if r.1 then 1 else 0)
      && (r.1 <==> k in Keys(m.t1) + Keys(m.t2))
      && forall q :: Lookup(r.0.t1, r.0.t2, hash, q) == if q == k then None else Lookup(m.t1, m.t2, hash, q)
  {
    var r := Remove(m, hash, k).0;
    var i1, i2 := Hash1(hash(k), |m.t1|), Hash2(hash(k), |m.t1|);
    LookupIffStored(m.t1, m.t2, hash, k);
    if m.t1[i1].Used? && m.t1[i1].key == k {
      EntriesOfUpdate(m.t1, i1, Free);
      assert CountUsed(m.t1) >= 1;
      forall q | q in Keys(r.t1) ensures q in Keys(m.t1) && q != k {
        var j :| 0 <= j < |r.t1| && r.t1[j].Used? && r.t1[j].key == q;
        assert m.t1[j] == r.t1[j];
      }
      forall q ensures Lookup(r.t1, r.t2, hash, q) == if q == k then None else Lookup(m.t1, m.t2, hash, q) {
        if q == k {
          assert k in Keys(m.t1);
          assert m.t2[i2].Used? && m.t2[i2].key == k ==> k in Keys(m.t2);
        }
      }
    } else if m.t2[i2].Used? && m.t2[i2].key == k {
      EntriesOfUpdate(m.t2, i2, Free);
      assert CountUsed(m.t2) >= 1;
      forall q | q in Keys(r.t2) ensures q in Keys(m.t2) && q != k {
        var j :| 0 <= j < |r.t2| && r.t2[j].Used? && r.t2[j].key == q;
        assert m.t2[j] == r.t2[j];
      }
    }
  }
}
