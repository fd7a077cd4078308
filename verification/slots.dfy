/** The slot of an open-addressing table, shared by the double-hashing
    `HashMap` and the two tables of the `CuckooHashMap` (`hash.h`): a slot
    is free or holds a key and its value.  A freed slot keeps its old key
    in the source, but that key is never read again, so it is dropped
    here. */
module Slots {
  datatype Slot<K, V> = Free | Used(key: K, value: V)

  /** The occupied slots' pairs, in slot order (the order `saveToBinary`
      writes them). */
  function Entries<K, V>(table: seq<Slot<K, V>>): (r: seq<(K, V)>)
    ensures |r| <= |table|
  {
    if |table| == 0 then []
    else (if table[0].Used? then [(table[0].key, table[0].value)] else []) + Entries(table[1..])
  }

  function CountUsed<K, V>(table: seq<Slot<K, V>>): nat
  {
    |Entries(table)|
  }

  /** The keys stored in occupied slots. */
  ghost function Keys<K, V>(table: seq<Slot<K, V>>): set<K>
  {
    set j | 0 <= j < |table| && table[j].Used? :: table[j].key
  }

  lemma {:induction false} EntriesOfUpdate<K, V>(table: seq<Slot<K, V>>, j: nat, s: Slot<K, V>)
    requires j < |table|
    ensures CountUsed(table[j := s]) ==
      CountUsed(table) - (if table[j].Used? then 1 else 0) + (if s.Used? then 1 else 0)
  {
    if j > 0 {
      assert table[j := s][1..] == table[1..][j - 1 := s];
      EntriesOfUpdate(table[1..], j - 1, s);
    } else {
      assert table[j := s][1..] == table[1..];
    }
  }

  lemma {:induction false} EntriesMembership<K, V>(table: seq<Slot<K, V>>, k: K, v: V)
    ensures (k, v) in Entries(table) <==> exists j | 0 <= j < |table| :: table[j] == Used(k, v)
  {
    if |table| > 0 {
      EntriesMembership(table[1..], k, v);
      if (k, v) in Entries(table[1..]) {
        var j :| 0 <= j < |table[1..]| && table[1..][j] == Used(k, v);
        assert table[j + 1] == Used(k, v);
      }
      if exists j | 0 <= j < |table| :: table[j] == Used(k, v) {
        var j :| 0 <= j < |table| && table[j] == Used(k, v);
        if j > 0 {
          assert table[1..][j - 1] == Used(k, v);
        }
      }
    }
  }

  /** A table has no entries exactly when it stores no key. */
  lemma {:induction false} NoEntriesNoKeys<K, V>(table: seq<Slot<K, V>>)
    ensures CountUsed(table) == 0 <==> Keys(table) == {}
  {
    if |table| > 0 {
      if table[0].Used? {
        assert table[0].key in Keys(table);
      } else {
        NoEntriesNoKeys(table[1..]);
        forall q | q in Keys(table) ensures q in Keys(table[1..]) {
          var j :| 0 <= j < |table| && table[j].Used? && table[j].key == q;
          assert table[1..][j - 1] == table[j];
        }
        forall q | q in Keys(table[1..]) ensures q in Keys(table) {
          var j :| 0 <= j < |table[1..]| && table[1..][j].Used? && table[1..][j].key == q;
          assert table[j + 1] == table[1..][j];
        }
      }
    }
  }

  /** A table with every slot occupied has `capacity` entries. */
  lemma {:induction false} AllUsedCount<K, V>(table: seq<Slot<K, V>>)
    requires forall j | 0 <= j < |table| :: table[j].Used?
    ensures CountUsed(table) == |table|
  {
    if |table| > 0 {
      assert forall j | 0 <= j < |table[1..]| :: table[1..][j] == table[j + 1];
      AllUsedCount(table[1..]);
    }
  }

  /** A table with a free slot has fewer than `capacity` entries. */
  lemma {:induction false} FreeSlotCount<K, V>(table: seq<Slot<K, V>>, j: nat)
    requires j < |table| && table[j].Free?
    ensures CountUsed(table) < |table|
  {
    if j > 0 {
      assert table[1..][j - 1].Free?;
      FreeSlotCount(table[1..], j - 1);
    }
  }

  lemma {:induction false} ClearedHasNoEntries<K, V>(table: seq<Slot<K, V>>)
    requires forall j | 0 <= j < |table| :: table[j].Free?
    ensures Entries(table) == []
  {
    if |table| > 0 {
      assert forall j | 0 <= j < |table[1..]| :: table[1..][j] == table[j + 1];
      ClearedHasNoEntries(table[1..]);
    }
  }

  /** Entries `i < j` come from slots `a < b`. */
  lemma {:induction false} EntriesIndexed<K, V>(table: seq<Slot<K, V>>, i: nat, j: nat)
    requires i < j < |Entries(table)|
    ensures exists a, b | 0 <= a < b < |table| ::
      table[a] == Used(Entries(table)[i].0, Entries(table)[i].1)
      && table[b] == Used(Entries(table)[j].0, Entries(table)[j].1)
  {
    var es := Entries(table);
    var tail := Entries(table[1..]);
    if table[0].Used? {
      assert es == [(table[0].key, table[0].value)] + tail;
      if i == 0 {
        EntriesMembership(table[1..], es[j].0, es[j].1);
        assert es[j] == tail[j - 1];
        var b :| 0 <= b < |table[1..]| && table[1..][b] == Used(es[j].0, es[j].1);
        assert table[b + 1] == table[1..][b];
      } else {
        EntriesIndexed(table[1..], i - 1, j - 1);
        var a, b :| 0 <= a < b < |table[1..]| && table[1..][a] == Used(tail[i - 1].0, tail[i - 1].1)
          && table[1..][b] == Used(tail[j - 1].0, tail[j - 1].1);
        assert table[a + 1] == table[1..][a] && table[b + 1] == table[1..][b];
      }
    } else {
      assert es == tail;
      EntriesIndexed(table[1..], i, j);
      var a, b :| 0 <= a < b < |table[1..]| && table[1..][a] == Used(tail[i].0, tail[i].1)
        && table[1..][b] == Used(tail[j].0, tail[j].1);
      assert table[a + 1] == table[1..][a] && table[b + 1] == table[1..][b];
    }
  }
}
