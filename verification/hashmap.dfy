/** The open-addressing `HashMap` with double hashing (`hash.h`,
    `hashmap.cpp`, and the Go port `hashmap.go`).

    The table is a `seq` of slots of fixed length (the capacity).  The hash
    function (`std::hash` in C++, FNV-1a in Go) is a parameter: every
    operation receives the hash value of the key it works on, and
    properties about several keys quantify over a function `hash`.

    The C++ and Go versions share `put`, `remove`-on-hit and `clear`; they
    differ when probing runs through the whole table without a stop: C++
    `findIndex` throws "full" there, so `get`, `contains` and `remove` fail
    with `Full`, while Go `findIndex` returns `(-1, false)`, so `Get` reports
    "not found", `Contains` is false and `Remove` is false. */
module HashMaps {
  import opened Wrappers
  import opened Bytes
  import opened Slots

  datatype HashMap<K, V> = HashMap(table: seq<Slot<K, V>>, count: nat)

  const DEFAULT_CAPACITY: nat := 101

  /** The constructor: `capacity` free slots. */
  function New<K, V>(capacity: nat): (m: HashMap<K, V>)
  {
    HashMap(seq(capacity, _ => Free), 0)
  }

  /** Go `NewHashMap`: a non-positive capacity becomes 101. */
  function GoNew<K, V>(capacity: int): (m: HashMap<K, V>)
  {
    New(if capacity <= 0 then DEFAULT_CAPACITY else capacity)
  }

  /** A new map has the requested number of slots, 101 for a non-positive
      request, all of them free, and count 0. */
  lemma GoNewEmpty<K, V>(capacity: int)
    ensures |GoNew<K, V>(capacity).table| == if capacity <= 0 then DEFAULT_CAPACITY else capacity
    ensures GoNew<K, V>(capacity).count == 0
    ensures forall j | 0 <= j < |GoNew<K, V>(capacity).table| :: GoNew<K, V>(capacity).table[j].Free?
  {
  }

  // ---------------------------------------------------------------------
  // Hashing and probing

  function Hash1(h: nat, cap: nat): (r: nat)
    requires cap >= 1
    ensures r < cap
  {
    h % cap
  }

  /** `hash2`: the probe step, `h mod (capacity - 1)` with 0 replaced by 1,
      so probing always moves on. */
  function Hash2(h: nat, cap: nat): (r: nat)
    requires cap >= 2
    ensures 1 <= r < cap
    ensures h % (cap - 1) != 0 ==> r == h % (cap - 1)
  {
    var x := h % (cap - 1);
    if x == 0 then 1 else x
  }

  /** The slot looked at in probe number `i`: `h1 + i*h2 mod capacity`. */
  function ProbeAt(h: nat, cap: nat, i: nat): (r: nat)
    requires cap >= 2
    ensures r < cap
    ensures i == 0 ==> r == Hash1(h, cap)
  {
    var first, offset := Hash1(h, cap), i * Hash2(h, cap);
    assert i == 0 ==> offset == 0;
    SmallMod(first, cap);
    (first + offset) % cap
  }

  lemma SmallMod(x: nat, cap: nat)
    requires x < cap
    ensures x % cap == x
  {
  }

  /** The outcome of `findIndex`: the key at probe `step`, a free slot at
      probe `step`, or `capacity` probes without either. */
  datatype Probe = Found(step: nat, index: nat) | Vacant(step: nat, index: nat) | Exhausted

  /** Slot `j` holds some other key, so the probe goes on past it. */
  ghost predicate Passes<K, V>(table: seq<Slot<K, V>>, k: K, j: nat)
  {
    j < |table| && table[j].Used? && table[j].key != k
  }

  /** Probing for `k` (hash value `h`) from probe number `i` on. */
  function FindFrom<K(==), V>(table: seq<Slot<K, V>>, h: nat, k: K, i: nat): (r: Probe)
    requires |table| >= 2
    ensures r.Found? ==> i <= r.step < |table| && r.index == ProbeAt(h, |table|, r.step)
                         && table[r.index].Used? && table[r.index].key == k
    ensures r.Vacant? ==> i <= r.step < |table| && r.index == ProbeAt(h, |table|, r.step)
                          && table[r.index].Free?
    ensures !r.Exhausted? ==> forall s | i <= s < r.step :: Passes(table, k, ProbeAt(h, |table|, s))
    ensures r.Exhausted? ==> forall s | i <= s < |table| :: Passes(table, k, ProbeAt(h, |table|, s))
    decreases |table| - i
  {
    if i >= |table| then Exhausted
    else
      var j := ProbeAt(h, |table|, i);
      if table[j].Free? then Vacant(i, j)
      else if table[j].key == k then Found(i, j)
      else FindFrom(table, h, k, i + 1)
  }

  function Find<K(==), V>(m: HashMap<K, V>, h: nat, k: K): Probe
    requires |m.table| >= 2
  {
    FindFrom(m.table, h, k, 0)
  }

  /** `findIndex` as the loop it is in the source; `index` is -1 when the
      probes run out (the Go return value; C++ throws there). */
  method FindIndex<K(==), V>(table: seq<Slot<K, V>>, h: nat, k: K) returns (found: bool, index: int)
    requires |table| >= 2
    ensures FindFrom(table, h, k, 0).Found? ==> found && index == FindFrom(table, h, k, 0).index
    ensures FindFrom(table, h, k, 0).Vacant? ==> !found && index == FindFrom(table, h, k, 0).index
    ensures FindFrom(table, h, k, 0).Exhausted? ==> !found && index == -1
  {
    var cap := |table|;
    var h1, h2 := Hash1(h, cap), Hash2(h, cap);
    index := h1;
    var i := 0;
    while i < cap
      invariant 0 <= i <= cap
      invariant index == ProbeAt(h, cap, i)
      invariant FindFrom(table, h, k, i) == FindFrom(table, h, k, 0)
    {
      if table[index].Free? {
        return false, index;
      }
      if table[index].key == k {
        return true, index;
      }
      index := (h1 + (i + 1) * h2) % cap;
      i := i + 1;
    }
    return false, -1;
  }

  /** `count` is the number of occupied slots; the capacity allows
      `hash2`. */
  ghost predicate Wf<K, V>(m: HashMap<K, V>)
  {
    |m.table| >= 2 && m.count == CountUsed(m.table)
  }

  // ---------------------------------------------------------------------
  // Operations

  /** `put`: refused with "full" when `count >= capacity` before looking at
      the table, and when probing runs out; an existing key gets the new
      value; a new key fills the free slot where probing stopped. */
  function Put<K(==), V>(m: HashMap<K, V>, h: nat, k: K, v: V): (r: Result<HashMap<K, V>>)
    requires |m.table| >= 2
    ensures r.Err? <==> m.count >= |m.table| || Find(m, h, k).Exhausted?
    ensures r.Err? ==> r.failure == Full
    ensures r.Ok? ==> |r.value.table| == |m.table|
    ensures r.Ok? ==> r.value.count == m.count + (if Find(m, h, k).Found? then 0 else 1)
    ensures r.Ok? ==> forall j | 0 <= j < |m.table| && j != Find(m, h, k).index :: r.value.table[j] == m.table[j]
  {
    if m.count >= |m.table| then Err(Full)
    else
      match Find(m, h, k)
      case Exhausted => Err(Full)
      case Found(_, j) => Ok(m.(table := m.table[j := Used(k, v)]))
      case Vacant(_, j) => Ok(HashMap(m.table[j := Used(k, v)], m.count + 1))
  }

  /** C++ `get`: the stored value, "not found" at a free slot, "full" when
      probing runs out. */
  function Get<K(==), V>(m: HashMap<K, V>, h: nat, k: K): (r: Result<V>)
    requires |m.table| >= 2
    ensures r.Ok? ==> Used(k, r.value) in m.table
    ensures r.Err? ==> r.failure == (if Find(m, h, k).Exhausted? then Full else KeyNotFound)
    ensures r.Ok? <==> Find(m, h, k).Found?
  {
    match Find(m, h, k)
    case Found(_, j) => Ok(m.table[j].value)
    case Vacant(_, _) => Err(KeyNotFound)
    case Exhausted => Err(Full)
  }

  /** Go `Get`: every miss is "not found". */
  function GoGet<K(==), V>(m: HashMap<K, V>, h: nat, k: K): (r: Result<V>)
    requires |m.table| >= 2
    ensures r.Err? ==> r.failure == KeyNotFound
    ensures Get(m, h, k).Ok? ==> r == Get(m, h, k)
    ensures Get(m, h, k).Err? ==> r.Err?
  {
    match Find(m, h, k)
    case Found(_, j) => Ok(m.table[j].value)
    case _ => Err(KeyNotFound)
  }

  /** C++ `contains`: the `findIndex` answer, or "full". */
  function Contains<K(==), V>(m: HashMap<K, V>, h: nat, k: K): (r: Result<bool>)
    requires |m.table| >= 2
    ensures r.Ok? <==> Get(m, h, k).Ok? || Get(m, h, k).failure == KeyNotFound
    ensures r.Ok? ==> (r.value <==> Get(m, h, k).Ok?)
  {
    match Find(m, h, k)
    case Found(_, _) => Ok(true)
    case Vacant(_, _) => Ok(false)
    case Exhausted => Err(Full)
  }

  /** Go `Contains`. */
  function GoContains<K(==), V>(m: HashMap<K, V>, h: nat, k: K): (r: bool)
    requires |m.table| >= 2
    ensures r <==> GoGet(m, h, k).Ok?
  {
    Find(m, h, k).Found?
  }

  /** `remove` on a hit: the slot is marked free (no tombstone) and
      `count` drops by one. */
  function RemoveAt<K, V>(m: HashMap<K, V>, j: nat): (r: HashMap<K, V>)
    requires Wf(m) && j < |m.table| && m.table[j].Used?
    ensures Wf(r) && |r.table| == |m.table| && r.count == m.count - 1
    ensures r.table[j].Free? && forall i | 0 <= i < |m.table| && i != j :: r.table[i] == m.table[i]
  {
    EntriesOfUpdate(m.table, j, Free);
    HashMap(m.table[j := Free], m.count - 1)
  }

  /** C++ `remove`: returns whether the key was found, or "full". */
  function Remove<K(==), V>(m: HashMap<K, V>, h: nat, k: K): (r: Result<(HashMap<K, V>, bool)>)
    requires Wf(m)
    ensures r.Ok? ==> Wf(r.value.0)
    ensures r.Ok? ==> (r.value.1 <==> Get(m, h, k).Ok?)
    ensures r.Ok? ==> r.value.0.count == m.count - (if r.value.1 then 1 else 0)
    ensures r.Ok? && !r.value.1 ==> r.value.0 == m
    ensures r.Err? <==> Find(m, h, k).Exhausted?
  {
    match Find(m, h, k)
    case Found(_, j) => Ok((RemoveAt(m, j), true))
    case Vacant(_, _) => Ok((m, false))
    case Exhausted => Err(Full)
  }

  /** Go `Remove`: a miss of either kind is `false`. */
  function GoRemove<K(==), V>(m: HashMap<K, V>, h: nat, k: K): (r: (HashMap<K, V>, bool))
    requires Wf(m)
    ensures Wf(r.0)
    ensures r.1 <==> GoGet(m, h, k).Ok?
    ensures r.0.count == m.count - (if r.1 then 1 else 0)
    ensures !r.1 ==> r.0 == m
  {
    match Find(m, h, k)
    case Found(_, j) => (RemoveAt(m, j), true)
    case _ => (m, false)
  }

  /** `clear`: every slot free, `count` 0, capacity kept. */
  function Clear<K, V>(m: HashMap<K, V>): (r: HashMap<K, V>)
    ensures |r.table| == |m.table| && r.count == 0
    ensures Keys(r.table) == {} && CountUsed(r.table) == 0
  {
    var r := New(|m.table|);
    assert Entries(r.table) == [] by {
      if |r.table| > 0 {
        ClearedHasNoEntries(r.table);
      }
    }
    r
  }

  /** `size`: the count, which in a well-formed map is the number of
      occupied slots, the pairs `saveToBinary` writes. */
  function Size<K, V>(m: HashMap<K, V>): (n: nat)
    ensures Wf(m) ==> n == |Entries(m.table)| && n <= |m.table|
  {
    m.count
  }

  /** C++ `empty`. */
  function IsEmpty<K, V>(m: HashMap<K, V>): (b: bool)
    requires Wf(m)
    ensures b <==> forall j | 0 <= j < |m.table| :: m.table[j].Free?
  {
    if m.count == 0 then
      forall j | 0 <= j < |m.table| ensures m.table[j].Free? {
        if m.table[j].Used? { EntriesOfUpdate(m.table, j, Free); }
      }
      true
    else
      assert !forall j | 0 <= j < |m.table| :: m.table[j].Free? by {
        if forall j | 0 <= j < |m.table| :: m.table[j].Free? { ClearedHasNoEntries(m.table); }
      }
      false
  }

  // ---------------------------------------------------------------------
  // Properties

  /** A successful `put` makes `get` return the new value. */
  lemma PutThenGet<K, V>(m: HashMap<K, V>, h: nat, k: K, v: V)
    requires |m.table| >= 2 && Put(m, h, k, v).Ok?
    ensures Get(Put(m, h, k, v).value, h, k) == Ok(v)
  {
    var p := Find(m, h, k);
    var t := Put(m, h, k, v).value.table;
    FindAfterWrite(m.table, h, k, p.step, p.index, v, 0);
  }

  /** Writing `k` into the slot where probing for `k` stopped: probing for
      `k` now finds it there. */
  lemma {:induction false} FindAfterWrite<K, V>(table: seq<Slot<K, V>>, h: nat, k: K, step: nat, j: nat, v: V, i: nat)
    requires |table| >= 2 && i <= step < |table| && j == ProbeAt(h, |table|, step)
    requires table[j].Free? || table[j].key == k
    requires forall s | i <= s < step :: Passes(table, k, ProbeAt(h, |table|, s))
    ensures FindFrom(table[j := Used(k, v)], h, k, i) == Found(step, j)
    decreases step - i
  {
    var t := table[j := Used(k, v)];
    var p := ProbeAt(h, |table|, i);
    if i < step {
      assert Passes(table, k, p);
      assert p != j;
      FindAfterWrite(table, h, k, step, j, v, i + 1);
    }
  }

  /** Every occupied slot is where probing for its key stops: what a table
      built by `put` alone looks like. */
  ghost predicate Reachable<K, V>(m: HashMap<K, V>, hash: K -> nat)
  {
    |m.table| >= 2
    && forall j | 0 <= j < |m.table| && m.table[j].Used? ::
         Find(m, hash(m.table[j].key), m.table[j].key).Found?
         && Find(m, hash(m.table[j].key), m.table[j].key).index == j
  }

  /** In a reachable table, probing finds exactly the stored keys, and no
      key is stored twice. */
  lemma FindIffStored<K, V>(m: HashMap<K, V>, hash: K -> nat, k: K)
    requires Reachable(m, hash)
    ensures Find(m, hash(k), k).Found? <==> k in Keys(m.table)
    ensures forall j | 0 <= j < |m.table| && m.table[j].Used? && m.table[j].key == k ::
              Find(m, hash(k), k) == Found(Find(m, hash(k), k).step, j)
  {
    if Find(m, hash(k), k).Found? {
      assert m.table[Find(m, hash(k), k).index].key == k;
    }
  }

  /** The empty table is reachable. */
  lemma NewReachable<K, V>(cap: nat, hash: K -> nat)
    requires cap >= 2
    ensures Reachable(New<K, V>(cap), hash) && Wf(New<K, V>(cap))
  {
    ClearedHasNoEntries(New<K, V>(cap).table);
  }

  /** `clear` gives a reachable table. */
  lemma ClearReachable<K, V>(m: HashMap<K, V>, hash: K -> nat)
    requires |m.table| >= 2
    ensures Reachable(Clear(m), hash) && Wf(Clear(m))
  {
    NewReachable<K, V>(|m.table|, hash);
  }

  /** Writing over a free slot, or into `k`'s own slot, does not change
      where probing for another key `q` stops, provided `q` was stored. */
  lemma {:induction false} FindOtherAfterWrite<K, V>(table: seq<Slot<K, V>>, hq: nat, q: K, j: nat, s: Slot<K, V>, i: nat)
    requires |table| >= 2 && j < |table| && s.Used?
    requires table[j].Free? || (table[j].Used? && table[j].key == s.key)
    requires s.key != q
    requires FindFrom(table, hq, q, i).Found?
    ensures FindFrom(table[j := s], hq, q, i) == FindFrom(table, hq, q, i)
    decreases |table| - i
  {
    var p := ProbeAt(hq, |table|, i);
    if table[p].Used? && table[p].key != q {
      FindOtherAfterWrite(table, hq, q, j, s, i + 1);
    }
  }

  /** `put` keeps the table reachable, keeps `count` equal to the number
      of occupied slots, and leaves every other stored key's `get` as it
      was. */
  lemma PutKeepsReachable<K, V>(m: HashMap<K, V>, hash: K -> nat, k: K, v: V)
    requires Reachable(m, hash) && Wf(m) && Put(m, hash(k), k, v).Ok?
    ensures Reachable(Put(m, hash(k), k, v).value, hash) && Wf(Put(m, hash(k), k, v).value)
    ensures forall q | q != k && q in Keys(m.table) ::
              Get(Put(m, hash(k), k, v).value, hash(q), q) == Get(m, hash(q), q)
    ensures Keys(Put(m, hash(k), k, v).value.table) == Keys(m.table) + {k}
  {
    var p := Find(m, hash(k), k);
    var j := p.index;
    var r := Put(m, hash(k), k, v).value;
    assert r.table == m.table[j := Used(k, v)];
    EntriesOfUpdate(m.table, j, Used(k, v));
    PutThenGet(m, hash(k), k, v);
    forall i | 0 <= i < |r.table| && r.table[i].Used?
      ensures Find(r, hash(r.table[i].key), r.table[i].key).Found?
      ensures Find(r, hash(r.table[i].key), r.table[i].key).index == i
    {
      if i != j {
        var q := m.table[i].key;
        FindOtherAfterWrite(m.table, hash(q), q, j, Used(k, v), 0);
      }
    }
    forall q | q != k && q in Keys(m.table)
      ensures Get(r, hash(q), q) == Get(m, hash(q), q)
    {
      FindIffStored(m, hash, q);
      FindOtherAfterWrite(m.table, hash(q), q, j, Used(k, v), 0);
    }
    assert j < |m.table|;
    forall q | q in Keys(r.table) ensures q in Keys(m.table) + {k} {
      var i :| 0 <= i < |r.table| && r.table[i].Used? && r.table[i].key == q;
      if i != j { assert m.table[i].key == q; }
    }
    forall q | q in Keys(m.table) + {k} ensures q in Keys(r.table) {
      if q != k {
        var i :| 0 <= i < |m.table| && m.table[i].Used? && m.table[i].key == q;
        if i == j { assert false; }
        assert r.table[i].key == q;
      }
    }
  }

  /** In a reachable table `remove` reports whether the key was stored and
      drops exactly that key; the table need not stay reachable (see
      `RemoveCanHideKey`). */
  lemma RemoveDropsKey<K, V>(m: HashMap<K, V>, hash: K -> nat, k: K)
    requires Reachable(m, hash) && Wf(m) && Remove(m, hash(k), k).Ok?
    ensures Remove(m, hash(k), k).value.1 <==> k in Keys(m.table)
    ensures Keys(Remove(m, hash(k), k).value.0.table) == Keys(m.table) - {k}
  {
    FindIffStored(m, hash, k);
    var p := Find(m, hash(k), k);
    if p.Found? {
      var r := Remove(m, hash(k), k).value.0;
      assert r.table == m.table[p.index := Free];
      forall q | q in Keys(r.table) ensures q in Keys(m.table) - {k} {
        var i :| 0 <= i < |r.table| && r.table[i].Used? && r.table[i].key == q;
        assert m.table[i] == r.table[i];
      }
      forall q | q in Keys(m.table) - {k} ensures q in Keys(r.table) {
        var i :| 0 <= i < |m.table| && m.table[i].Used? && m.table[i].key == q;
        assert r.table[i] == m.table[i];
      }
    }
  }

  /** A table of two where every key hashes to 0: key 1 sits at its
      first probe, key 2 one probe behind it. */
  const Collided: HashMap<int, int> := HashMap([Used(1, 10), Used(2, 20)], 2)

  /** The table `Collided` becomes once key 1 is removed. */
  const Hidden: HashMap<int, int> := HashMap([Free, Used(2, 20)], 1)

  lemma CollidedFindsFirst()
    ensures FindFrom(Collided.table, 0, 1, 0) == Found(0, 0)
  {
    assert ProbeAt(0, 2, 0) == 0;
  }

  lemma SecondProbe()
    ensures ProbeAt(0, 2, 1) == 1
  {
    assert Hash2(0, 2) == 1;
  }

  lemma CollidedFindsSecond()
    ensures FindFrom(Collided.table, 0, 2, 0) == Found(1, 1)
  {
    SecondProbe();
    assert FindFrom(Collided.table, 0, 2, 1) == Found(1, 1);
    assert ProbeAt(0, 2, 0) == 0;
  }

  lemma HiddenStopsFirst()
    ensures FindFrom(Hidden.table, 0, 2, 0) == Vacant(0, 0)
  {
    assert ProbeAt(0, 2, 0) == 0;
  }

  lemma CollidedCount()
    ensures Wf(Collided)
  {
    assert Entries(Collided.table[1..][1..]) == [];
    assert Entries(Collided.table[1..]) == [(2, 20)];
  }

  /** `Collided` is a table `put` can build: each key sits where probing for
      it stops. */
  lemma CollidedReachable()
    ensures Reachable(Collided, (x: int) => 0) && Wf(Collided)
  {
    CollidedFindsFirst();
    CollidedFindsSecond();
    CollidedCount();
  }

  /** Key 2 is found in `Collided` one probe behind key 1. */
  lemma CollidedGet()
    ensures Get(Collided, 0, 2) == Ok(20)
  {
    CollidedFindsSecond();
  }

  /** Removing key 1 from `Collided` frees slot 0 and gives `Hidden`. */
  lemma RemoveFreesFirstSlot()
    ensures Wf(Collided) && Remove(Collided, 0, 1) == Ok((Hidden, true))
  {
    CollidedCount();
    CollidedFindsFirst();
    assert Collided.table[0 := Free] == Hidden.table;
  }

  /** Removing without a tombstone can hide another key: in `Hidden`,
      probing for key 2 stops at the freed slot 0, so key 2 is reported
      missing although it is stored. */
  lemma RemoveCanHideKey()
    ensures Used(2, 20) in Hidden.table && 2 in Keys(Hidden.table)
    ensures Get(Hidden, 0, 2) == Err(KeyNotFound)
  {
    HiddenStopsFirst();
    assert Hidden.table[1].Used?;
  }

  /** A later `put` of the hidden key stores it a second time. */
  lemma HiddenKeyStoredTwice()
    ensures Put(Hidden, 0, 2, 30) == Ok(HashMap([Used(2, 30), Used(2, 20)], 2))
  {
    HiddenStopsFirst();
    assert Hidden.table[0 := Used(2, 30)] == [Used(2, 30), Used(2, 20)];
  }

  // ---------------------------------------------------------------------
  // Covering probe sequences

  /** Probing for hash value `h` reaches slot `j` within `cap` probes. */
  ghost predicate Hits(h: nat, cap: nat, j: nat)
    requires cap >= 2
  {
    exists i: nat | i < cap :: ProbeAt(h, cap, i) == j
  }

  /** Every probe sequence visits every slot, as it does when the
      capacity is prime (the default 101). */
  ghost predicate Covers(cap: nat)
  {
    cap >= 2 && forall h: nat, j: nat | j < cap :: Hits(h, cap, j)
  }

  /** With covering probes, probing only runs out in a full table. */
  lemma ExhaustedMeansFull<K, V>(m: HashMap<K, V>, h: nat, k: K)
    requires Covers(|m.table|) && Find(m, h, k).Exhausted?
    ensures CountUsed(m.table) == |m.table|
  {
    forall j | 0 <= j < |m.table| ensures m.table[j].Used? {
      assert Hits(h, |m.table|, j);
      var i: nat :| i < |m.table| && ProbeAt(h, |m.table|, i) == j;
      assert Passes(m.table, k, ProbeAt(h, |m.table|, i));
    }
    AllUsedCount(m.table);
  }

  /** In a full table probing for a key not stored runs out. */
  lemma FullMeansExhausted<K, V>(m: HashMap<K, V>, h: nat, k: K)
    requires |m.table| >= 2 && CountUsed(m.table) == |m.table| && k !in Keys(m.table)
    ensures Find(m, h, k).Exhausted?
  {
    var p := Find(m, h, k);
    if p.Vacant? {
      FreeSlotCount(m.table, p.index);
    }
  }

  // ---------------------------------------------------------------------
  // The string/string binary codecs: C++ (hashmap.cpp:124-170) and Go
  // (hashmap.go:146-208).  Both write a count and then, in slot order,
  // every occupied slot's key and value as length-prefixed strings; both
  // loaders clear the map and `put` the pairs back one by one.  They
  // differ in the width of the count and the string codec, so the pair
  // loop is shared and takes the string codec as a parameter.

  /** A string decoder: the string and the rest of the stream, or why the
      read failed. */
  type StrDecoder = seq<byte> -> Result<(Str, seq<byte>)>

  /** `dec` reads back what `enc` wrote for every string shorter than
      `limit`, whatever follows it. */
  ghost predicate Decodes(enc: Str -> seq<byte>, dec: StrDecoder, limit: nat)
  {
    forall x: Str, rest: seq<byte> | |x| < limit :: dec(enc(x) + rest) == Ok((x, rest))
  }

  function EncodePairs(enc: Str -> seq<byte>, ps: seq<(Str, Str)>): seq<byte>
  {
    if |ps| == 0 then [] else enc(ps[0].0) + enc(ps[0].1) + EncodePairs(enc, ps[1..])
  }

  /** The loading loop: read a key and a value, `put` them, `n` times; the
      first failure ends the load. */
  function LoadPairs(m: HashMap<Str, Str>, hash: Str -> nat, dec: StrDecoder, s: seq<byte>, n: nat): (r: Result<(HashMap<Str, Str>, seq<byte>)>)
    requires |m.table| >= 2
    ensures r.Ok? ==> |r.value.0.table| == |m.table|
    decreases n
  {
    if n == 0 then Ok((m, s))
    else
      match LoadPair(m, hash, dec, s)
      case Err(f) => Err(f)
      case Ok((m1, s1)) => LoadPairs(m1, hash, dec, s1, n - 1)
  }

  /** One iteration of the loading loop. */
  function LoadPair(m: HashMap<Str, Str>, hash: Str -> nat, dec: StrDecoder, s: seq<byte>): (r: Result<(HashMap<Str, Str>, seq<byte>)>)
    requires |m.table| >= 2
    ensures r.Ok? ==> |r.value.0.table| == |m.table|
  {
    match dec(s)
    case Err(f) => Err(f)
    case Ok((k, s1)) =>
      match dec(s1)
      case Err(f) => Err(f)
      case Ok((v, s2)) =>
        match Put(m, hash(k), k, v)
        case Err(f) => Err(f)
        case Ok(m1) => Ok((m1, s2))
  }

  /** C++ `readString`, with running out of input reported as `ShortRead`
      (the C++ reader itself goes on with indeterminate bytes). */
  function CppString(s: seq<byte>): (r: Result<(Str, seq<byte>)>)
    ensures r.Ok? <==> DecodeString(s).Some?
    ensures r.Ok? ==> r.value == DecodeString(s).value
  {
    match DecodeString(s)
    case None => Err(ShortRead)
    case Some(p) => Ok(p)
  }

  lemma CppStringDecodes()
    ensures Decodes(EncodeString, CppString, TWO_32)
  {
    forall x: Str, rest: seq<byte> | |x| < TWO_32 ensures CppString(EncodeString(x) + rest) == Ok((x, rest)) {
      StringRoundTrip(x, rest);
    }
  }

  lemma GoStringDecodes()
    ensures Decodes(EncodeGoString, DecodeGoString, TWO_31)
  {
    forall x: Str, rest: seq<byte> | |x| < TWO_31 ensures DecodeGoString(EncodeGoString(x) + rest) == Ok((x, rest)) {
      GoStringRoundTrip(x, rest);
    }
  }

  /** C++ `saveToBinary`: the count as a u32, then the pairs. */
  function Save(m: HashMap<Str, Str>): (r: seq<byte>)
    ensures |r| >= 4 && r[..4] == EncodeU32(m.count % TWO_32)
  {
    EncodeU32(m.count % TWO_32) + EncodePairs(EncodeString, Entries(m.table))
  }

  /** C++ `loadFromBinary`.  `Full` is the exception `put` throws, which
      abandons the load. */
  function Load(m: HashMap<Str, Str>, hash: Str -> nat, s: seq<byte>): (r: Result<(HashMap<Str, Str>, seq<byte>)>)
    requires |m.table| >= 2
    ensures r.Ok? ==> |r.value.0.table| == |m.table|
  {
    match DecodeU32(s)
    case None => Err(ShortRead)
    case Some((n, rest)) => LoadPairs(Clear(m), hash, CppString, rest, n)
  }

  /** Go `SaveToBinary`: the count as a little-endian int32, then the
      pairs with int32 length prefixes. */
  function GoSave(m: HashMap<Str, Str>): (r: seq<byte>)
    ensures |r| >= 4 && r[..4] == EncodeI32(m.count)
  {
    EncodeI32(m.count) + EncodePairs(EncodeGoString, Entries(m.table))
  }

  /** Go `LoadFromBinary`: a negative count loads nothing; the first read
      or `Put` error is returned. */
  function GoLoad(m: HashMap<Str, Str>, hash: Str -> nat, s: seq<byte>): (r: Result<(HashMap<Str, Str>, seq<byte>)>)
    requires |m.table| >= 2
    ensures r.Ok? ==> |r.value.0.table| == |m.table|
    ensures DecodeI32(s).Some? && DecodeI32(s).value.0 <= 0 ==> r == Ok((Clear(m), s[4..]))
  {
    match DecodeI32(s)
    case None => Err(ShortRead)
    case Some((n, rest)) => LoadPairs(Clear(m), hash, DecodeGoString, rest, if n < 0 then 0 else n)
  }

  /** The keys of a list of pairs, as a set. */
  ghost function PairKeys(ps: seq<(Str, Str)>): set<Str>
  {
    set i | 0 <= i < |ps| :: ps[i].0
  }

  ghost predicate DistinctKeys(ps: seq<(Str, Str)>)
  {
    forall i, j | 0 <= i < j < |ps| :: ps[i].0 != ps[j].0
  }

  ghost predicate ShortStrings(ps: seq<(Str, Str)>, limit: nat)
  {
    forall i | 0 <= i < |ps| :: |ps[i].0| < limit && |ps[i].1| < limit
  }

  /** One encoded pair is read back and `put`. */
  lemma LoadPairStep(m: HashMap<Str, Str>, hash: Str -> nat, enc: Str -> seq<byte>, dec: StrDecoder, limit: nat,
                     k: Str, v: Str, rest: seq<byte>)
    requires |m.table| >= 2 && Decodes(enc, dec, limit) && |k| < limit && |v| < limit
    ensures LoadPair(m, hash, dec, enc(k) + enc(v) + rest) ==
      match Put(m, hash(k), k, v)
      case Err(f) => Err(f)
      case Ok(m1) => Ok((m1, rest))
  {
    assert enc(k) + enc(v) + rest == enc(k) + (enc(v) + rest);
    assert dec(enc(k) + (enc(v) + rest)) == Ok((k, enc(v) + rest));
    assert dec(enc(v) + rest) == Ok((v, rest));
  }

  /** A key not yet stored, put into a reachable table with a free slot
      and covering probes, is accepted and stored. */
  lemma PutFresh(m: HashMap<Str, Str>, hash: Str -> nat, k: Str, v: Str)
    requires Reachable(m, hash) && Wf(m) && Covers(|m.table|)
    requires k !in Keys(m.table) && m.count < |m.table|
    ensures Put(m, hash(k), k, v).Ok?
    ensures Put(m, hash(k), k, v).value.count == m.count + 1
  {
    FindIffStored(m, hash, k);
    if Find(m, hash(k), k).Exhausted? {
      ExhaustedMeansFull(m, hash(k), k);
    }
  }

  /** Loading pairs with distinct keys, none already stored, into a
      reachable table with room for them all: each is stored, nothing
      else changes, and the table stays reachable. */
  lemma {:induction false} LoadPairsStores(m: HashMap<Str, Str>, hash: Str -> nat, enc: Str -> seq<byte>, dec: StrDecoder, limit: nat,
                                           ps: seq<(Str, Str)>, rest: seq<byte>)
    requires Reachable(m, hash) && Wf(m) && Covers(|m.table|) && Decodes(enc, dec, limit)
    requires DistinctKeys(ps) && ShortStrings(ps, limit)
    requires forall i | 0 <= i < |ps| :: ps[i].0 !in Keys(m.table)
    requires m.count + |ps| <= |m.table|
    ensures LoadPairs(m, hash, dec, EncodePairs(enc, ps) + rest, |ps|).Ok?
    ensures var r := LoadPairs(m, hash, dec, EncodePairs(enc, ps) + rest, |ps|).value;
      r.1 == rest && Reachable(r.0, hash) && Wf(r.0) && r.0.count == m.count + |ps|
      && Keys(r.0.table) == Keys(m.table) + PairKeys(ps)
      && (forall q | q in Keys(m.table) :: Get(r.0, hash(q), q) == Get(m, hash(q), q))
      && (forall i | 0 <= i < |ps| :: Get(r.0, hash(ps[i].0), ps[i].0) == Ok(ps[i].1))
    decreases |ps|
  {
    if |ps| == 0 {
      assert PairKeys(ps) == {};
    } else {
      var k, v := ps[0].0, ps[0].1;
      var tail := ps[1..];
      assert EncodePairs(enc, ps) + rest == enc(k) + enc(v) + (EncodePairs(enc, tail) + rest);
      PutFresh(m, hash, k, v);
      LoadPairStep(m, hash, enc, dec, limit, k, v, EncodePairs(enc, tail) + rest);
      var m1 := Put(m, hash(k), k, v).value;
      PutKeepsReachable(m, hash, k, v);
      PutThenGet(m, hash(k), k, v);
      TailStays(ps, Keys(m.table), limit);
      LoadPairsStores(m1, hash, enc, dec, limit, tail, rest);
      PairKeysCons(ps);
      var r := LoadPairs(m1, hash, dec, EncodePairs(enc, tail) + rest, |tail|).value;
      forall i | 0 <= i < |ps| ensures Get(r.0, hash(ps[i].0), ps[i].0) == Ok(ps[i].1) {
        if i > 0 {
          assert ps[i] == tail[i - 1];
        } else {
          assert k in Keys(m1.table);
        }
      }
    }
  }

  /** The tail of a list with distinct keys, none in `stored`, has distinct
      keys, none in `stored` plus the head's key. */
  lemma TailStays(ps: seq<(Str, Str)>, stored: set<Str>, limit: nat)
    requires |ps| > 0 && DistinctKeys(ps) && ShortStrings(ps, limit)
    requires forall i | 0 <= i < |ps| :: ps[i].0 !in stored
    ensures DistinctKeys(ps[1..]) && ShortStrings(ps[1..], limit)
    ensures forall i | 0 <= i < |ps[1..]| :: ps[1..][i].0 !in stored + {ps[0].0}
  {
    forall i | 0 <= i < |ps[1..]| ensures ps[1..][i] == ps[i + 1] { }
  }

  lemma PairKeysCons(ps: seq<(Str, Str)>)
    requires |ps| > 0
    ensures PairKeys(ps) == {ps[0].0} + PairKeys(ps[1..])
  {
    var tail := ps[1..];
    forall q | q in PairKeys(ps) ensures q in {ps[0].0} + PairKeys(tail) {
      var i :| 0 <= i < |ps| && ps[i].0 == q;
      if i > 0 { assert tail[i - 1].0 == q; }
    }
    forall q | q in PairKeys(tail) ensures q in PairKeys(ps) {
      var i :| 0 <= i < |tail| && tail[i].0 == q;
      assert ps[i + 1].0 == q;
    }
  }

  /** Each stored pair is what `get` returns for its key in a reachable
      table. */
  lemma EntryIsGot(m: HashMap<Str, Str>, hash: Str -> nat, i: nat)
    requires Reachable(m, hash) && i < |Entries(m.table)|
    ensures Entries(m.table)[i].0 in Keys(m.table)
    ensures Get(m, hash(Entries(m.table)[i].0), Entries(m.table)[i].0) == Ok(Entries(m.table)[i].1)
  {
    var e := Entries(m.table)[i];
    EntriesMembership(m.table, e.0, e.1);
    var j :| 0 <= j < |m.table| && m.table[j] == Used(e.0, e.1);
    FindIffStored(m, hash, e.0);
  }

  /** Two stored pairs have different keys in a reachable table. */
  lemma EntryKeysDiffer(m: HashMap<Str, Str>, hash: Str -> nat, i: nat, j: nat)
    requires Reachable(m, hash) && i < j < |Entries(m.table)|
    ensures Entries(m.table)[i].0 != Entries(m.table)[j].0
  {
    var es := Entries(m.table);
    EntriesIndexed(m.table, i, j);
    var a, b :| 0 <= a < b < |m.table| && m.table[a] == Used(es[i].0, es[i].1) && m.table[b] == Used(es[j].0, es[j].1);
    assert Find(m, hash(m.table[a].key), m.table[a].key).index == a;
    assert Find(m, hash(m.table[b].key), m.table[b].key).index == b;
  }

  /** The stored pairs' keys are the stored keys. */
  lemma EntryKeysAreKeys<K, V>(table: seq<Slot<K, V>>)
    ensures forall q | q in Keys(table) :: exists i | 0 <= i < |Entries(table)| :: Entries(table)[i].0 == q
    ensures forall i | 0 <= i < |Entries(table)| :: Entries(table)[i].0 in Keys(table)
  {
    var es := Entries(table);
    forall q | q in Keys(table) ensures exists i | 0 <= i < |es| :: es[i].0 == q {
      var j :| 0 <= j < |table| && table[j].Used? && table[j].key == q;
      EntriesMembership(table, q, table[j].value);
      var i :| 0 <= i < |es| && es[i] == (q, table[j].value);
    }
    forall i | 0 <= i < |es| ensures es[i].0 in Keys(table) {
      EntriesMembership(table, es[i].0, es[i].1);
    }
  }

  /** The stored pairs, in slot order, have distinct keys in a reachable
      table, their keys are the stored keys, and `get` returns each pair's
      value for its key. */
  lemma EntriesDistinct(m: HashMap<Str, Str>, hash: Str -> nat)
    requires Reachable(m, hash)
    ensures DistinctKeys(Entries(m.table))
    ensures PairKeys(Entries(m.table)) == Keys(m.table)
    ensures forall i | 0 <= i < |Entries(m.table)| ::
              Get(m, hash(Entries(m.table)[i].0), Entries(m.table)[i].0) == Ok(Entries(m.table)[i].1)
  {
    var es := Entries(m.table);
    forall i | 0 <= i < |es| ensures Get(m, hash(es[i].0), es[i].0) == Ok(es[i].1) {
      EntryIsGot(m, hash, i);
    }
    forall i, j | 0 <= i < j < |es| ensures es[i].0 != es[j].0 {
      EntryKeysDiffer(m, hash, i, j);
    }
    EntryKeysAreKeys(m.table);
  }

  /** Two reachable tables of the same capacity, with covering probes,
      the same stored keys and the same number of them, that agree on every
      stored key, agree on every key. */
  lemma SameAnswers(m: HashMap<Str, Str>, r: HashMap<Str, Str>, hash: Str -> nat, q: Str)
    requires Reachable(m, hash) && Wf(m) && Reachable(r, hash) && Wf(r)
    requires |r.table| == |m.table| && Covers(|m.table|)
    requires Keys(r.table) == Keys(m.table) && r.count == m.count
    requires q in Keys(m.table) ==> Get(r, hash(q), q) == Get(m, hash(q), q)
    ensures Get(r, hash(q), q) == Get(m, hash(q), q)
  {
    if q !in Keys(m.table) {
      FindIffStored(m, hash, q);
      FindIffStored(r, hash, q);
      if m.count == |m.table| {
        FullMeansExhausted(m, hash(q), q);
        FullMeansExhausted(r, hash(q), q);
      } else {
        if Find(m, hash(q), q).Exhausted? { ExhaustedMeansFull(m, hash(q), q); }
        if Find(r, hash(q), q).Exhausted? { ExhaustedMeansFull(r, hash(q), q); }
      }
    }
  }

  /** Loading pairs saved from a reachable map into a cleared map of the
      same capacity reproduces the map's answers. */
  lemma LoadSavedPairs(m: HashMap<Str, Str>, target: HashMap<Str, Str>, hash: Str -> nat,
                       enc: Str -> seq<byte>, dec: StrDecoder, limit: nat, rest: seq<byte>)
    requires Reachable(m, hash) && Wf(m) && Covers(|m.table|) && Decodes(enc, dec, limit)
    requires |target.table| == |m.table| && ShortStrings(Entries(m.table), limit)
    ensures var n := |Entries(m.table)|;
      LoadPairs(Clear(target), hash, dec, EncodePairs(enc, Entries(m.table)) + rest, n).Ok?
    ensures var r := LoadPairs(Clear(target), hash, dec, EncodePairs(enc, Entries(m.table)) + rest, |Entries(m.table)|).value;
      r.1 == rest && Reachable(r.0, hash) && Wf(r.0) && r.0.count == m.count
      && forall q :: Get(r.0, hash(q), q) == Get(m, hash(q), q)
  {
    var es := Entries(m.table);
    EntriesDistinct(m, hash);
    var c := Clear(target);
    ClearReachable(target, hash);
    LoadPairsStores(c, hash, enc, dec, limit, es, rest);
    var r := LoadPairs(c, hash, dec, EncodePairs(enc, es) + rest, |es|).value;
    assert Keys(c.table) == {};
    AnswersAgree(m, r.0, hash);
  }

  /** A map with the same keys and count that answers every saved entry
      as the original does answers every key as it does. */
  lemma AnswersAgree(m: HashMap<Str, Str>, r: HashMap<Str, Str>, hash: Str -> nat)
    requires Reachable(m, hash) && Wf(m) && Reachable(r, hash) && Wf(r)
    requires |r.table| == |m.table| && Covers(|m.table|)
    requires Keys(r.table) == Keys(m.table) && r.count == m.count
    requires forall i | 0 <= i < |Entries(m.table)| ::
               Get(r, hash(Entries(m.table)[i].0), Entries(m.table)[i].0) == Ok(Entries(m.table)[i].1)
    ensures forall q :: Get(r, hash(q), q) == Get(m, hash(q), q)
  {
    EntriesDistinct(m, hash);
    var es := Entries(m.table);
    forall q ensures Get(r, hash(q), q) == Get(m, hash(q), q) {
      if q in Keys(m.table) {
        var i :| 0 <= i < |es| && es[i].0 == q;
      }
      SameAnswers(m, r, hash, q);
    }
  }

  /** C++: saving a reachable map and loading into a map of the same
      capacity gives the same size and the same answer from `get` for
      every key, provided every probe sequence covers the table and the
      strings fit the 32-bit length prefix. */
  lemma SaveLoadRoundTrip(m: HashMap<Str, Str>, target: HashMap<Str, Str>, hash: Str -> nat, rest: seq<byte>)
    requires Reachable(m, hash) && Wf(m) && Covers(|m.table|) && |m.table| < TWO_32
    requires |target.table| == |m.table|
    requires ShortStrings(Entries(m.table), TWO_32)
    ensures Load(target, hash, Save(m) + rest).Ok?
    ensures var r := Load(target, hash, Save(m) + rest).value;
      r.1 == rest && Reachable(r.0, hash) && Wf(r.0) && r.0.count == m.count
      && forall q :: Get(r.0, hash(q), q) == Get(m, hash(q), q)
  {
    CppStringDecodes();
    LoadOfSave(m, target, hash, rest);
    LoadSavedPairs(m, target, hash, EncodeString, CppString, TWO_32, rest);
  }

  /** With fewer than 2^32 slots the saved count is read back unchanged,
      and the pairs follow it. */
  lemma LoadOfSave(m: HashMap<Str, Str>, target: HashMap<Str, Str>, hash: Str -> nat, rest: seq<byte>)
    requires Wf(m) && |m.table| < TWO_32 && |target.table| >= 2
    ensures Load(target, hash, Save(m) + rest) ==
      LoadPairs(Clear(target), hash, CppString, EncodePairs(EncodeString, Entries(m.table)) + rest, |Entries(m.table)|)
  {
    var body := EncodePairs(EncodeString, Entries(m.table));
    SaveSplits(m, rest);
    U32RoundTrip(m.count, body + rest);
  }

  lemma SaveSplits(m: HashMap<Str, Str>, rest: seq<byte>)
    requires Wf(m) && |m.table| < TWO_32
    ensures Save(m) + rest == EncodeU32(m.count) + (EncodePairs(EncodeString, Entries(m.table)) + rest)
  {
    assert m.count < TWO_32;
    assert m.count % TWO_32 == m.count;
  }

  /** `Hidden` with string keys and values, every key hashing to 0: key
      "b" sits in slot 1 behind the slot 0 a `remove` freed. */
  const HiddenText: HashMap<Str, Str> := HashMap([Free, Used([98], [121])], 1)

  /** A two-slot table with nothing in it. */
  const EmptyPair: HashMap<Str, Str> := HashMap([Free, Free], 0)

  /** The hash under which every key collides. */
  function ZeroHash(x: Str): nat
  {
    0
  }

  /** The round trip needs `Reachable`: after a `remove` has hidden a key,
      saving and loading the map brings the key back, so `get` answers
      differently for it. */
  lemma SaveLoadRevealsHiddenKey()
    ensures Get(HiddenText, 0, [98]) == Err(KeyNotFound)
    ensures Load(EmptyPair, ZeroHash, Save(HiddenText)).Ok?
    ensures Get(Load(EmptyPair, ZeroHash, Save(HiddenText)).value.0, 0, [98]) == Ok([121])
  {
    assert ProbeAt(0, 2, 0) == 0;
    assert FindFrom(HiddenText.table, 0, [98], 0) == Vacant(0, 0);
    LoadHiddenText();
    assert FindFrom(HashMap([Used([98], [121]), Free], 1).table, 0, [98], 0) == Found(0, 0);
  }

  /** Saving `HiddenText` writes the one pair it holds. */
  lemma SaveHiddenText()
    ensures Wf(HiddenText) && Entries(HiddenText.table) == [([98], [121])]
  {
    var k: Str, v: Str := [98], [121];
    assert Entries(HiddenText.table[1..][1..]) == [];
    assert Entries(HiddenText.table[1..]) == [(k, v)];
  }

  /** Loading it back `put`s that pair into the free first slot. */
  lemma LoadHiddenText()
    ensures Load(EmptyPair, ZeroHash, Save(HiddenText)) == Ok((HashMap([Used([98], [121]), Free], 1), []))
  {
    var k: Str, v: Str := [98], [121];
    SaveHiddenText();
    LoadOfSave(HiddenText, EmptyPair, ZeroHash, []);
    assert Save(HiddenText) + [] == Save(HiddenText);
    var body := EncodeString(v);
    assert EncodePairs(EncodeString, [(k, v)]) + [] == EncodeString(k) + (body + []);
    StringRoundTrip(k, body + []);
    StringRoundTrip(v, []);
    var loaded := HashMap([Used(k, v), Free], 1);
    PutIntoEmptyPair(k, v);
    assert LoadPair(Clear(EmptyPair), ZeroHash, CppString, EncodeString(k) + (body + [])) == Ok((loaded, []));
  }

  lemma PutIntoEmptyPair(k: Str, v: Str)
    ensures Put(Clear(EmptyPair), ZeroHash(k), k, v) == Ok(HashMap([Used(k, v), Free], 1))
  {
    assert ProbeAt(0, 2, 0) == 0;
    assert Clear(EmptyPair).table == [Free, Free];
    assert FindFrom(Clear(EmptyPair).table, 0, k, 0) == Vacant(0, 0);
    assert [Free, Free][0 := Used(k, v)] == [Used(k, v), Free];
  }

  /** Go: the same round trip, for strings and a table below 2^31. */
  lemma GoSaveLoadRoundTrip(m: HashMap<Str, Str>, target: HashMap<Str, Str>, hash: Str -> nat, rest: seq<byte>)
    requires Reachable(m, hash) && Wf(m) && Covers(|m.table|) && |m.table| < TWO_31
    requires |target.table| == |m.table|
    requires ShortStrings(Entries(m.table), TWO_31)
    ensures GoLoad(target, hash, GoSave(m) + rest).Ok?
    ensures var r := GoLoad(target, hash, GoSave(m) + rest).value;
      r.1 == rest && Reachable(r.0, hash) && Wf(r.0) && r.0.count == m.count
      && forall q :: Get(r.0, hash(q), q) == Get(m, hash(q), q)
  {
    GoStringDecodes();
    var body := EncodePairs(EncodeGoString, Entries(m.table));
    assert GoSave(m) + rest == EncodeI32(m.count) + (body + rest);
    I32RoundTrip(m.count, body + rest);
    LoadSavedPairs(m, target, hash, EncodeGoString, DecodeGoString, TWO_31, rest);
  }
}
