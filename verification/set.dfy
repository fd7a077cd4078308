/** `Set` (`set.cpp`, `hash.h`, and the Go port `set.go`): a thin layer
    over the open-addressing `HashMap`.  C++ stores every element with the
    value `true`, Go with the empty string; every operation is the map's.
    The members of a set are the keys of its map's table. */
module Sets {
  import opened Wrappers
  import opened Bytes
  import opened Slots
  import opened HashMaps

  /** C++ `Set<T>` over `HashMap<T, bool>`. */
  datatype Set<T> = Set(m: HashMap<T, bool>)

  /** Go `Set` over the string `HashMap`. */
  datatype GoSet = GoSet(m: HashMap<Str, Str>)

  ghost function Members<T>(s: Set<T>): set<T>
  {
    Keys(s.m.table)
  }

  ghost function GoMembers(s: GoSet): set<Str>
  {
    Keys(s.m.table)
  }

  /** The constructor. */
  function New<T>(capacity: nat): (s: Set<T>)
  {
    Set(HashMaps.New(capacity))
  }

  /** Go `NewSet`: the map's non-positive-capacity rule applies. */
  function GoNewSet(capacity: int): (s: GoSet)
    ensures |s.m.table| == if capacity <= 0 then DEFAULT_CAPACITY else capacity
  {
    GoSet(GoNew(capacity))
  }

  /** `add`: `put(value, true)`; "full" is the map's. */
  function Add<T(==)>(s: Set<T>, h: nat, x: T): (r: Result<Set<T>>)
    requires |s.m.table| >= 2
    ensures r.Err? <==> Put(s.m, h, x, true).Err?
    ensures r.Err? ==> r.failure == Full
  {
    match Put(s.m, h, x, true)
    case Err(f) => Err(f)
    case Ok(m) => Ok(Set(m))
  }

  /** `contains`. */
  function Contains<T(==)>(s: Set<T>, h: nat, x: T): (r: Result<bool>)
    requires |s.m.table| >= 2
    ensures r.Ok? <==> Get(s.m, h, x).Ok? || Get(s.m, h, x).failure == KeyNotFound
    ensures r.Ok? ==> (r.value <==> Get(s.m, h, x).Ok?)
  {
    HashMaps.Contains(s.m, h, x)
  }

  /** `remove`. */
  function Remove<T(==)>(s: Set<T>, h: nat, x: T): (r: Result<(Set<T>, bool)>)
    requires Wf(s.m)
    ensures r.Ok? ==> Wf(r.value.0.m)
    ensures r.Ok? ==> (r.value.1 <==> Get(s.m, h, x).Ok?)
    ensures r.Ok? ==> Size(r.value.0) == Size(s) - (if r.value.1 then 1 else 0)
    ensures r.Ok? && !r.value.1 ==> r.value.0 == s
    ensures r.Err? <==> Find(s.m, h, x).Exhausted?
  {
    match HashMaps.Remove(s.m, h, x)
    case Err(f) => Err(f)
    case Ok((m, b)) => Ok((Set(m), b))
  }

  function Clear<T>(s: Set<T>): (r: Set<T>)
    ensures Members(r) == {} && Size(r) == 0
  {
    Set(HashMaps.Clear(s.m))
  }

  function Size<T>(s: Set<T>): (n: nat)
    ensures Wf(s.m) ==> n == |Entries(s.m.table)|
  {
    HashMaps.Size(s.m)
  }

  /** `empty`: the map's. */
  function IsEmpty<T>(s: Set<T>): (b: bool)
    requires Wf(s.m)
    ensures b <==> Members(s) == {}
  {
    var b := HashMaps.IsEmpty(s.m);
    assert b <==> Members(s) == {} by {
      if !b {
        var j :| 0 <= j < |s.m.table| && s.m.table[j].Used?;
        assert s.m.table[j].key in Members(s);
      }
    }
    b
  }

  /** Go `Add`: `Put(value, "")`, its error passed on. */
  function GoAdd(s: GoSet, h: nat, x: Str): (r: Result<GoSet>)
    requires |s.m.table| >= 2
    ensures r.Err? <==> Put(s.m, h, x, []).Err?
    ensures r.Err? ==> r.failure == Full
  {
    match Put(s.m, h, x, [])
    case Err(f) => Err(f)
    case Ok(m) => Ok(GoSet(m))
  }

  function GoContainsElem(s: GoSet, h: nat, x: Str): (b: bool)
    requires |s.m.table| >= 2
    ensures b <==> GoGet(s.m, h, x).Ok?
  {
    GoContains(s.m, h, x)
  }

  function GoRemoveElem(s: GoSet, h: nat, x: Str): (r: (GoSet, bool))
    requires Wf(s.m)
    ensures Wf(r.0.m)
    ensures r.1 <==> GoGet(s.m, h, x).Ok?
    ensures GoSize(r.0) == GoSize(s) - (if r.1 then 1 else 0)
    ensures !r.1 ==> r.0 == s
  {
    var (m, b) := GoRemove(s.m, h, x);
    (GoSet(m), b)
  }

  function GoClear(s: GoSet): (r: GoSet)
    ensures GoMembers(r) == {} && GoSize(r) == 0
  {
    GoSet(HashMaps.Clear(s.m))
  }

  function GoSize(s: GoSet): (n: nat)
    ensures Wf(s.m) ==> n == |Entries(s.m.table)|
  {
    HashMaps.Size(s.m)
  }

  // ---------------------------------------------------------------------
  // Properties, for sets whose map is reachable (built by `add` alone)

  /** A set whose map every `add` could have built. */
  ghost predicate Valid<T>(s: Set<T>, hash: T -> nat)
  {
    Reachable(s.m, hash) && Wf(s.m)
  }

  ghost predicate GoValid(s: GoSet, hash: Str -> nat)
  {
    Reachable(s.m, hash) && Wf(s.m)
  }

  /** `add` makes `x` a member and keeps the others; the size grows by one
      exactly when `x` was not a member (a duplicate `add` changes
      nothing). */
  lemma AddSpec<T>(s: Set<T>, hash: T -> nat, x: T)
    requires Valid(s, hash) && Add(s, hash(x), x).Ok?
    ensures Valid(Add(s, hash(x), x).value, hash)
    ensures Members(Add(s, hash(x), x).value) == Members(s) + {x}
    ensures Size(Add(s, hash(x), x).value) == Size(s) + (if x in Members(s) then 0 else 1)
  {
    PutKeepsReachable(s.m, hash, x, true);
    FindIffStored(s.m, hash, x);
  }

  /** `contains` answers `true` exactly for members; for a non-member it
      answers `false`, or "full" when probing runs through the table, which
      with covering probe sequences happens only when the table is full. */
  lemma ContainsIffMember<T>(s: Set<T>, hash: T -> nat, x: T)
    requires Valid(s, hash)
    ensures Contains(s, hash(x), x) == Ok(true) <==> x in Members(s)
    ensures x !in Members(s) ==> Contains(s, hash(x), x) in {Ok(false), Err(Full)}
    ensures x !in Members(s) && Size(s) < |s.m.table| && Covers(|s.m.table|) ==>
              Contains(s, hash(x), x) == Ok(false)
  {
    FindIffStored(s.m, hash, x);
    if Find(s.m, hash(x), x).Exhausted? && Covers(|s.m.table|) {
      ExhaustedMeansFull(s.m, hash(x), x);
    }
  }

  /** `remove` answers whether `x` was a member, and drops exactly `x`; the
      size shrinks by one exactly then. */
  lemma RemoveSpec<T>(s: Set<T>, hash: T -> nat, x: T)
    requires Valid(s, hash) && Remove(s, hash(x), x).Ok?
    ensures Remove(s, hash(x), x).value.1 <==> x in Members(s)
    ensures Members(Remove(s, hash(x), x).value.0) == Members(s) - {x}
    ensures Size(Remove(s, hash(x), x).value.0) == Size(s) - (if x in Members(s) then 1 else 0)
  {
    RemoveDropsKey(s.m, hash, x);
  }

  /** `clear` gives an empty valid set that contains nothing. */
  lemma ClearSpec<T>(s: Set<T>, hash: T -> nat, x: T)
    requires |s.m.table| >= 2
    ensures Valid(Clear(s), hash) && IsEmpty(Clear(s))
    ensures Contains(Clear(s), hash(x), x) == Ok(false)
  {
    ClearReachable(s.m, hash);
    FindIffStored(Clear(s).m, hash, x);
    var c := Clear(s).m;
    assert c.table[Hash1(hash(x), |c.table|)].Free?;
  }

  /** Go: `Add` makes `x` a member, a duplicate leaves the size as it
      was, and a full map's error is passed on. */
  lemma GoAddSpec(s: GoSet, hash: Str -> nat, x: Str)
    requires GoValid(s, hash)
    ensures GoAdd(s, hash(x), x).Err? ==> GoSize(s) >= |s.m.table| || Find(s.m, hash(x), x).Exhausted?
    ensures GoAdd(s, hash(x), x).Ok? ==>
      GoValid(GoAdd(s, hash(x), x).value, hash)
      && GoMembers(GoAdd(s, hash(x), x).value) == GoMembers(s) + {x}
      && GoSize(GoAdd(s, hash(x), x).value) == GoSize(s) + (if x in GoMembers(s) then 0 else 1)
  {
    if GoAdd(s, hash(x), x).Ok? {
      PutKeepsReachable(s.m, hash, x, []);
      FindIffStored(s.m, hash, x);
    }
  }

  /** Go: `Contains` is true exactly for members. */
  lemma GoContainsIffMember(s: GoSet, hash: Str -> nat, x: Str)
    requires GoValid(s, hash)
    ensures GoContainsElem(s, hash(x), x) <==> x in GoMembers(s)
  {
    FindIffStored(s.m, hash, x);
  }

  /** Go: `Remove` answers whether `x` was a member and drops exactly
      `x`. */
  lemma GoRemoveSpec(s: GoSet, hash: Str -> nat, x: Str)
    requires GoValid(s, hash)
    ensures GoRemoveElem(s, hash(x), x).1 <==> x in GoMembers(s)
    ensures GoMembers(GoRemoveElem(s, hash(x), x).0) == GoMembers(s) - {x}
    ensures GoSize(GoRemoveElem(s, hash(x), x).0) == GoSize(s) - (if x in GoMembers(s) then 1 else 0)
  {
    FindIffStored(s.m, hash, x);
    if Find(s.m, hash(x), x).Exhausted? {
      assert GoRemoveElem(s, hash(x), x).0 == s;
    } else {
      RemoveDropsKey(s.m, hash, x);
    }
  }

  /** Go: after `Clear` the size is 0 and nothing is contained. */
  lemma GoClearSpec(s: GoSet, hash: Str -> nat, x: Str)
    requires |s.m.table| >= 2
    ensures GoValid(GoClear(s), hash) && GoSize(GoClear(s)) == 0
    ensures !GoContainsElem(GoClear(s), hash(x), x)
  {
    ClearReachable(s.m, hash);
    FindIffStored(GoClear(s).m, hash, x);
  }
}
