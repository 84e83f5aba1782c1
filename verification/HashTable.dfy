/** The growing Robin Hood hash table that the search index keys by 5-byte node ids. */
module HashTable {
  import opened Basics
  import opened BitFields

  /** A node id: one tag byte and four bytes of hash. */
  datatype Key = Key(tag: Byte, h1: Byte, h2: Byte, h3: Byte, h4: Byte) {
    function Hash(): nat {
      h1 * 0x100_0000 + h2 * 0x1_0000 + h3 * 0x100 + h4
    }
  }

  const ZERO: Key := Key(0, 0, 0, 0, 0)

  // ---------- Slots and distances ----------

  /** The slot where the search for a key starts. */
  function Preferred(key: Key, n: nat): (slot: nat)
    requires n > 0
    ensures slot < n
  {
    key.Hash() % n
  }

  /** How far slot lies after from, walking upwards and wrapping around. */
  function Distance(from: nat, slot: nat, n: nat): nat
    requires from < n && slot < n
  {
    if from <= slot then slot - from else n - from + slot
  }

  function Next(slot: nat, n: nat): nat
    requires slot < n
  {
    if slot + 1 == n then 0 else slot + 1
  }

  function Previous(slot: nat, n: nat): nat
    requires slot < n
  {
    if slot == 0 then n - 1 else slot - 1
  }

  /** The slot that lies d after from. */
  function Walk(from: nat, d: nat, n: nat): (slot: nat)
    requires from < n && d <= n
    ensures slot < n
    ensures d < n ==> Distance(from, slot, n) == d
  {
    if from + d < n then from + d else from + d - n
  }

  // ---------- The table as two sequences ----------

  datatype Table<V> = Table(keys: seq<Key>, values: seq<Option<V>>) {
    function Size(): nat {
      |values|
    }

    predicate Full(slot: nat) {
      slot < |values| && values[slot].Some?
    }

    ghost predicate Shaped() {
      |keys| == |values| && |values| > 0
    }

    function Displacement(slot: nat): nat
      requires Shaped() && slot < Size()
    {
      Distance(Preferred(keys[slot], Size()), slot, Size())
    }

    ghost predicate Distinct() {
      |keys| == |values| && forall s: nat, t: nat :: Full(s) && Full(t) && s != t ==> keys[s] != keys[t]
    }

    /** A displaced entry follows a full slot that is displaced by at most one less. */
    ghost predicate Supported(slot: nat)
      requires Shaped() && slot < Size()
    {
      var p := Previous(slot, Size());
      Displacement(slot) > 0 ==> Full(p) && Displacement(p) + 1 >= Displacement(slot)
    }

    ghost predicate RobinHood() {
      Shaped() && forall s: nat {:trigger Supported(s)} :: Full(s) ==> Supported(s)
    }

    /** The table stores exactly the map m. */
    ghost predicate Stores(m: map<Key, V>) {
      && |keys| == |values|
      && (forall s: nat :: Full(s) ==> keys[s] in m && m[keys[s]] == values[s].value)
      && (forall k :: k in m ==> exists s: nat :: Full(s) && keys[s] == k)
    }

    function Put(slot: nat, key: Key, value: V): Table<V>
      requires |keys| == |values| && slot < |values|
    {
      Table(keys[slot := key], values[slot := Some(value)])
    }

    /** The key is at no smaller displacement than d. */
    ghost predicate NotBefore(key: Key, d: nat)
      requires Shaped()
    {
      forall s: nat :: Full(s) && keys[s] == key ==> Displacement(s) >= d
    }

    /** The d slots from the key's preferred slot on are full, and each is displaced at least
      * as far as the walk has come.
      */
    ghost predicate Passed(key: Key, d: nat)
      requires Shaped() && d <= Size()
    {
      forall i :: 0 <= i < d ==>
        var s := Walk(Preferred(key, Size()), i, Size());
        Full(s) && Displacement(s) >= i
    }
  }

  // ---------- Lookup ----------

  /** Every slot between an entry's preferred slot and its own is full and displaced enough. */
  lemma {:induction false} WalkIsPassed<V>(t: Table<V>, slot: nat, i: nat)
    requires t.RobinHood() && t.Full(slot) && i <= t.Displacement(slot)
    ensures var s := Walk(Preferred(t.keys[slot], t.Size()), i, t.Size());
            t.Full(s) && t.Displacement(s) >= i
    decreases t.Displacement(slot) - i
  {
    hide Preferred;
    var n := t.Size();
    var from := Preferred(t.keys[slot], n);
    assert Walk(from, Distance(from, slot, n), n) == slot;
    if i < t.Displacement(slot) {
      WalkIsPassed(t, slot, i + 1);
      var s := Walk(from, i + 1, n);
      assert t.Supported(s);
      assert Previous(s, n) == Walk(from, i, n);
    }
  }

  lemma EntryIsPassed<V>(t: Table<V>, slot: nat)
    requires t.RobinHood() && t.Full(slot)
    ensures t.Displacement(slot) < t.Size()
    ensures t.Passed(t.keys[slot], t.Displacement(slot))
  {
    forall i | 0 <= i < t.Displacement(slot)
      ensures var s := Walk(Preferred(t.keys[slot], t.Size()), i, t.Size()); t.Full(s) && t.Displacement(s) >= i
    {
      WalkIsPassed(t, slot, i);
    }
  }

  /** A search that meets an empty slot, or an entry less displaced than the search itself,
    * can stop: the key is not further on.
    */
  lemma StopIsSafe<V>(t: Table<V>, key: Key, d: nat, slot: nat)
    requires t.RobinHood() && d < t.Size()
    requires var s := Walk(Preferred(key, t.Size()), d, t.Size()); !t.Full(s) || t.Displacement(s) < d
    requires t.Full(slot) && t.keys[slot] == key
    ensures t.Displacement(slot) < d
  {
    if t.Displacement(slot) >= d {
      WalkIsPassed(t, slot, d);
    }
  }

  // ---------- Insertion ----------

  /** Writing an entry that has passed everything before the slot keeps the table in order,
    * if the slot was empty or held an entry displaced less.
    */
  lemma PutKeepsOrder<V>(t: Table<V>, key: Key, d: nat, value: V)
    requires t.RobinHood() && t.Distinct() && d < t.Size() && t.Passed(key, d)
    requires forall s: nat :: t.Full(s) ==> t.keys[s] != key
    requires var slot := Walk(Preferred(key, t.Size()), d, t.Size()); t.Full(slot) ==> t.Displacement(slot) < d
    ensures var slot := Walk(Preferred(key, t.Size()), d, t.Size());
            var t' := t.Put(slot, key, value);
            t'.RobinHood() && t'.Distinct() && t'.Displacement(slot) == d
  {
    var n := t.Size();
    var slot := Walk(Preferred(key, n), d, n);
    var t' := t.Put(slot, key, value);
    assert t'.Displacement(slot) == d;
    forall s: nat | t'.Full(s) ensures t'.Supported(s) {
      if s == slot {
        if d > 0 {
          assert Previous(slot, n) == Walk(Preferred(key, n), d - 1, n);
        }
      } else {
        assert t.Supported(s);
      }
    }
  }

  /** Overwriting the value of an entry changes nothing else. */
  lemma OverwriteKeepsOrder<V>(t: Table<V>, slot: nat, value: V)
    requires t.RobinHood() && t.Distinct() && t.Full(slot)
    ensures t.Put(slot, t.keys[slot], value).RobinHood() && t.Put(slot, t.keys[slot], value).Distinct()
  {
    var t' := t.Put(slot, t.keys[slot], value);
    forall s: nat | t'.Full(s) ensures t'.Supported(s) {
      assert t.Supported(s);
    }
  }

  // ---------- The map a table stores ----------

  lemma PutInEmptySlot<V>(t: Table<V>, m: map<Key, V>, slot: nat, key: Key, value: V)
    requires t.Stores(m) && slot < |t.values| && !t.Full(slot) && key !in m
    ensures t.Put(slot, key, value).Stores(m[key := value])
  {
    var t', m' := t.Put(slot, key, value), m[key := value];
    assert t'.Full(slot) && t'.keys[slot] == key;
    forall k | k in m' ensures exists s: nat :: t'.Full(s) && t'.keys[s] == k {
      if k != key {
        var s: nat :| t.Full(s) && t.keys[s] == k;
        assert t'.Full(s) && t'.keys[s] == k;
      }
    }
  }

  lemma PutInFullSlot<V>(t: Table<V>, m: map<Key, V>, slot: nat, key: Key, value: V)
    requires t.Stores(m) && t.Distinct() && t.Full(slot)
    requires key !in m || key == t.keys[slot]
    ensures t.Put(slot, key, value).Stores((m - {t.keys[slot]})[key := value])
  {
    var t', m' := t.Put(slot, key, value), (m - {t.keys[slot]})[key := value];
    assert t'.Full(slot) && t'.keys[slot] == key;
    forall k | k in m' ensures exists s: nat :: t'.Full(s) && t'.keys[s] == k {
      if k != key {
        var s: nat :| t.Full(s) && t.keys[s] == k;
        assert t'.Full(s) && t'.keys[s] == k;
      }
    }
  }

  function FullSlots<V>(values: seq<Option<V>>): set<nat> {
    set s: nat | s < |values| && values[s].Some?
  }

  lemma FullSlotsAfterPut<V>(values: seq<Option<V>>, slot: nat, value: V)
    requires slot < |values|
    ensures FullSlots(values[slot := Some(value)]) == FullSlots(values) + {slot}
    ensures values[slot].None? ==> |FullSlots(values[slot := Some(value)])| == |FullSlots(values)| + 1
    ensures values[slot].Some? ==> FullSlots(values[slot := Some(value)]) == FullSlots(values)
  {
  }

  function Below(n: nat): set<nat> {
    if n == 0 then {} else Below(n - 1) + {n - 1}
  }

  lemma {:induction false} SlotsBelow(n: nat)
    ensures |Below(n)| == n
    ensures forall s: nat :: s in Below(n) <==> s < n
  {
    if n > 0 {
      SlotsBelow(n - 1);
    }
  }

  lemma SomeSlotIsEmpty<V>(values: seq<Option<V>>) returns (slot: nat)
    requires |FullSlots(values)| < |values|
    ensures slot < |values| && values[slot].None?
  {
    SlotsBelow(|values|);
    var all, full := Below(|values|), FullSlots(values);
    assert all * full == full;
    assert |all - full| == |all| - |full|;
    slot :| slot in all - full;
  }

  /** Replacing an entry by another carried one, and carrying the replaced one on. */
  lemma SwapKeepsUnion<V>(m: map<Key, V>, key: Key, value: V, other: Key)
    requires other in m && key !in m
    ensures |(m - {other})[key := value]| == |m|
    ensures (m - {other})[key := value][other := m[other]] == m[key := value]
    ensures other !in (m - {other})[key := value]
  {
  }

  /** The table is in Robin Hood order and stores m. */
  ghost predicate Ordered<V>(t: Table<V>, m: map<Key, V>) {
    t.RobinHood() && t.Distinct() && t.Stores(m) && |m| == |FullSlots(t.values)|
  }

  lemma StopMeansAbsent<V>(t: Table<V>, m: map<Key, V>, key: Key, d: nat)
    requires Ordered(t, m) && t.Shaped() && d < t.Size() && t.NotBefore(key, d)
    requires var s := Walk(Preferred(key, t.Size()), d, t.Size()); !t.Full(s) || t.Displacement(s) < d
    ensures key !in m
  {
    hide Table.RobinHood;
    if key in m {
      var s: nat :| t.Full(s) && t.keys[s] == key;
      StopIsSafe(t, key, d, s);
    }
  }

  lemma StoredAt<V>(t: Table<V>, m: map<Key, V>, slot: nat)
    requires Ordered(t, m) && t.Shaped() && t.Full(slot)
    ensures t.keys[slot] in m && m[t.keys[slot]] == t.values[slot].value
  {
  }

  /** Entering a new key in the empty slot that its search ended at. */
  lemma EnterInEmptySlot<V>(t: Table<V>, m: map<Key, V>, key: Key, d: nat, value: V)
    requires Ordered(t, m) && t.Shaped() && d < t.Size() && t.Passed(key, d) && key !in m
    requires !t.Full(Walk(Preferred(key, t.Size()), d, t.Size()))
    ensures Ordered(t.Put(Walk(Preferred(key, t.Size()), d, t.Size()), key, value), m[key := value])
    ensures |m[key := value]| == |m| + 1
  {
    hide Preferred, Table.RobinHood;
    var slot := Walk(Preferred(key, t.Size()), d, t.Size());
    PutKeepsOrder(t, key, d, value);
    PutInEmptySlot(t, m, slot, key, value);
    FullSlotsAfterPut(t.values, slot, value);
  }

  lemma EnterOverSameKey<V>(t: Table<V>, m: map<Key, V>, slot: nat, value: V)
    requires Ordered(t, m) && t.Shaped() && t.Full(slot)
    ensures Ordered(t.Put(slot, t.keys[slot], value), m[t.keys[slot] := value])
    ensures |m[t.keys[slot] := value]| == |m|
  {
    hide Table.RobinHood;
    var key := t.keys[slot];
    OverwriteKeepsOrder(t, slot, value);
    PutInFullSlot(t, m, slot, key, value);
    assert (m - {key})[key := value] == m[key := value];
    FullSlotsAfterPut(t.values, slot, value);
  }

  lemma AbsentAfterAll<V>(t: Table<V>, m: map<Key, V>, key: Key)
    requires Ordered(t, m) && t.Shaped() && t.NotBefore(key, t.Size())
    ensures key !in m
  {
  }

  lemma NotHereMeansLater<V>(t: Table<V>, key: Key, d: nat)
    requires t.Shaped() && d < t.Size() && t.NotBefore(key, d)
    requires var s := Walk(Preferred(key, t.Size()), d, t.Size()); !t.Full(s) || t.keys[s] != key
    ensures t.NotBefore(key, d + 1)
    ensures var s := Walk(Preferred(key, t.Size()), d, t.Size());
            (t.Passed(key, d) && t.Full(s) && t.Displacement(s) >= d) ==> t.Passed(key, d + 1)
  {
  }

  /** The entry that gives way has itself passed every slot up to the one it leaves. */
  lemma DisplacedIsPassed<V>(t: Table<V>, key: Key, d: nat, value: V)
    requires t.RobinHood() && d < t.Size()
    requires var slot := Walk(Preferred(key, t.Size()), d, t.Size()); t.Full(slot) && t.Displacement(slot) < d
    ensures var slot := Walk(Preferred(key, t.Size()), d, t.Size());
            t.Put(slot, key, value).Shaped() && t.Displacement(slot) < t.Size() &&
            t.Put(slot, key, value).Passed(t.keys[slot], t.Displacement(slot) + 1)
  {
    hide Preferred;
    var n := t.Size();
    var slot := Walk(Preferred(key, n), d, n);
    var t', from := t.Put(slot, key, value), Preferred(t.keys[slot], n);
    EntryIsPassed(t, slot);
    hide Table.RobinHood;
    assert Walk(from, t.Displacement(slot), n) == slot;
    forall i | 0 <= i < t.Displacement(slot) + 1
      ensures var s := Walk(from, i, n); t'.Full(s) && t'.Displacement(s) >= i
    {
      var s := Walk(from, i, n);
      assert s != slot ==> t.Full(s) && t.Displacement(s) >= i;
    }
  }

  /** Entering a new key in the slot of a less displaced one, whose search then goes on. */
  lemma EnterOverOther<V>(t: Table<V>, m: map<Key, V>, key: Key, d: nat, value: V)
    requires Ordered(t, m) && t.Shaped() && d < t.Size() && t.Passed(key, d) && key !in m
    requires var slot := Walk(Preferred(key, t.Size()), d, t.Size()); t.Full(slot) && t.Displacement(slot) < d
    ensures var slot := Walk(Preferred(key, t.Size()), d, t.Size());
            var other, t', m' := t.keys[slot], t.Put(slot, key, value), (m - {t.keys[slot]})[key := value];
            && other in m && m[other] == t.values[slot].value && |m'| == |m|
            && Ordered(t', m') && other !in m' && m'[other := m[other]] == m[key := value]
            && t'.Shaped() && t.Displacement(slot) + 1 <= t.Size()
            && t'.Passed(other, t.Displacement(slot) + 1) && t'.NotBefore(other, t.Displacement(slot) + 1)
  {
    hide Preferred, Table.RobinHood;
    var slot := Walk(Preferred(key, t.Size()), d, t.Size());
    PutKeepsOrder(t, key, d, value);
    PutInFullSlot(t, m, slot, key, value);
    DisplacedIsPassed(t, key, d, value);
    SwapKeepsUnion(m, key, value, t.keys[slot]);
    FullSlotsAfterPut(t.values, slot, value);
  }

  lemma SearchStart<V>(t: Table<V>, key: Key)
    requires t.Shaped()
    ensures t.NotBefore(key, 0) && t.Passed(key, 0)
    ensures Walk(Preferred(key, t.Size()), 0, t.Size()) == Preferred(key, t.Size())
  {
  }

  lemma EmptySlot<V>(t: Table<V>, m: map<Key, V>) returns (slot: nat)
    requires Ordered(t, m) && |m| < |t.values|
    ensures slot < |t.values| && t.values[slot].None?
  {
    slot := SomeSlotIsEmpty(t.values);
  }

  /** Walking on by one slot, towards an empty slot elsewhere. */
  lemma OneStepOn(from: nat, slot: nat, d: nat, empty: nat, n: nat)
    requires from < n && slot < n && empty < n && d < n && slot != empty
    requires slot == Walk(from, d, n) || d == Distance(from, slot, n)
    ensures Next(slot, n) < n
    ensures Next(slot, n) == Walk(from, d + 1, n)
    ensures Distance(Next(slot, n), empty, n) < Distance(slot, empty, n)
  {
  }

  lemma AllPassedMeansFull<V>(t: Table<V>, key: Key, slot: nat)
    requires t.Shaped() && t.Passed(key, t.Size()) && slot < t.Size()
    ensures t.Full(slot)
  {
    hide Preferred;
    var from := Preferred(key, t.Size());
    assert Walk(from, Distance(from, slot, t.Size()), t.Size()) == slot;
  }

  lemma EmptyInOrder<V>(t: Table<V>)
    requires t.Shaped() && forall s :: 0 <= s < |t.values| ==> t.values[s].None?
    ensures Ordered(t, map[])
  {
  }

  /** The entries in the first n slots, entered one after the other. */
  ghost function EnteredBelow<V>(t: Table<V>, n: nat): map<Key, V>
    requires |t.keys| == |t.values| && n <= |t.values|
  {
    if n == 0 then map[]
    else if t.Full(n - 1) then EnteredBelow(t, n - 1)[t.keys[n - 1] := t.values[n - 1].value]
    else EnteredBelow(t, n - 1)
  }

  lemma {:induction false} EnteredStores<V>(t: Table<V>, n: nat)
    requires t.Distinct() && n <= |t.values|
    ensures forall k :: k in EnteredBelow(t, n) ==>
              exists s: nat :: s < n && t.Full(s) && t.keys[s] == k && EnteredBelow(t, n)[k] == t.values[s].value
    ensures forall s: nat :: s < n && t.Full(s) ==> t.keys[s] in EnteredBelow(t, n)
  {
    if n > 0 {
      EnteredStores(t, n - 1);
    }
  }

  lemma EnteredAll<V>(t: Table<V>, m: map<Key, V>)
    requires Ordered(t, m)
    ensures EnteredBelow(t, |t.values|) == m
  {
    EnteredStores(t, |t.values|);
  }

  /** The entries in the first n slots, in slot order. */
  function Listed<V>(t: Table<V>, n: nat): seq<(Key, V)>
    requires |t.keys| == |t.values| && n <= |t.values|
  {
    if n == 0 then []
    else if t.Full(n - 1) then Listed(t, n - 1) + [(t.keys[n - 1], t.values[n - 1].value)]
    else Listed(t, n - 1)
  }

  lemma {:induction false} ListedCount<V>(t: Table<V>, n: nat)
    requires |t.keys| == |t.values| && n <= |t.values|
    ensures |Listed(t, n)| == |FullSlots(t.values[..n])|
  {
    if n == 0 {
      assert FullSlots(t.values[..0]) == {};
    } else {
      ListedCount(t, n - 1);
      var full := FullSlots(t.values[..n - 1]);
      assert FullSlots(t.values[..n]) == if t.Full(n - 1) then full + {n - 1} else full;
    }
  }

  ghost predicate ListedFrom<V>(t: Table<V>, n: nat, e: (Key, V))
    requires |t.keys| == |t.values|
  {
    exists s: nat :: s < n && t.Full(s) && e.0 == t.keys[s] && e.1 == t.values[s].value
  }

  lemma {:induction false} ListedMembers<V>(t: Table<V>, n: nat)
    requires |t.keys| == |t.values| && n <= |t.values|
    ensures forall i :: 0 <= i < |Listed(t, n)| ==> ListedFrom(t, n, Listed(t, n)[i])
    ensures forall s: nat :: s < n && t.Full(s) ==> (t.keys[s], t.values[s].value) in Listed(t, n)
  {
    if n > 0 {
      ListedMembers(t, n - 1);
      forall i | 0 <= i < |Listed(t, n)| ensures ListedFrom(t, n, Listed(t, n)[i]) {
        if i < |Listed(t, n - 1)| {
          assert ListedFrom(t, n - 1, Listed(t, n - 1)[i]);
        } else {
          assert t.Full(n - 1);
        }
      }
    }
  }

  lemma {:induction false} ListedOnce<V>(t: Table<V>, n: nat)
    requires t.Distinct() && n <= |t.values|
    ensures forall i, j :: 0 <= i < j < |Listed(t, n)| ==> Listed(t, n)[i].0 != Listed(t, n)[j].0
  {
    if n > 0 {
      ListedOnce(t, n - 1);
      ListedMembers(t, n - 1);
      var before := Listed(t, n - 1);
      forall i | 0 <= i < |before| && t.Full(n - 1) ensures before[i].0 != t.keys[n - 1] {
        assert ListedFrom(t, n - 1, before[i]);
      }
    }
  }

  lemma ListedAll<V>(t: Table<V>, m: map<Key, V>)
    requires Ordered(t, m) && t.Shaped()
    ensures |Listed(t, |t.values|)| == |m|
    ensures forall i, j :: 0 <= i < j < |Listed(t, |t.values|)| ==>
              Listed(t, |t.values|)[i].0 != Listed(t, |t.values|)[j].0
    ensures forall k, v :: (k, v) in Listed(t, |t.values|) <==> k in m && m[k] == v
  {
    hide Table.RobinHood;
    ListedCount(t, |t.values|);
    ListedMembers(t, |t.values|);
    ListedOnce(t, |t.values|);
    forall k, v | (k, v) in Listed(t, |t.values|) ensures k in m && m[k] == v {
      assert ListedFrom(t, |t.values|, (k, v));
    }
    assert t.values[..|t.values|] == t.values;
  }

  class Map<V> {
    var keys: array<Key>
    var values: seq<Option<V>>
    var size: nat
    var capacityClass: nat
    ghost var Contents: map<Key, V>

    function View(): Table<V>
      reads this, keys
    {
      Table(keys[..], values)
    }

    /** What both the loops and the callers rely on, for a table with at least one slot. */
    ghost predicate InOrder()
      reads this, keys
    {
      && keys.Length == |values| == Pow2(capacityClass)
      && Ordered(View(), Contents) && size == |Contents|
    }

    ghost predicate Valid()
      reads this, keys
    {
      if |values| == 0 then keys.Length == 0 && capacityClass == 0 && size == 0 && Contents == map[]
      else InOrder() && capacityClass > 0
    }

    constructor ()
      ensures Valid() && Contents == map[] && fresh(keys)
    {
      keys := new Key[0];
      values := [];
      size, capacityClass := 0, 0;
      Contents := map[];
    }

    /** The last value set for the key, or nothing. */
    method Get(key: Key) returns (result: Option<V>)
      requires Valid()
      ensures result == if key in Contents then Some(Contents[key]) else None
    {
      hide Preferred, Pow2, Ordered, Table.NotBefore;
      var l := Pow2(capacityClass);
      var slot := Preferred(key, l);
      var distance := 0;
      if |values| > 0 {
        SearchStart(View(), key);
      }
      while distance < l
        invariant distance <= l && slot == Walk(Preferred(key, l), distance, l)
        invariant |values| > 0 ==> View().NotBefore(key, distance)
      {
        if |values| <= slot || values[slot].None? {
          if |values| > 0 {
            StopMeansAbsent(View(), Contents, key, distance);
          }
          return None;
        } else if keys[slot] == key {
          StoredAt(View(), Contents, slot);
          return values[slot];
        } else {
          var otherDistance := Distance(Preferred(keys[slot], l), slot, l);
          if distance > otherDistance {
            StopMeansAbsent(View(), Contents, key, distance);
            return None;
          }
        }
        NotHereMeansLater(View(), key, distance);
        distance := distance + 1;
        slot := Next(slot, l);
      }
      if |values| > 0 {
        AbsentAfterAll(View(), Contents, key);
      }
      return None;
    }

    /** Every key once, with its value, in slot order. */
    method Entries() returns (entries: seq<(Key, V)>)
      requires Valid()
      ensures |entries| == size == |Contents|
      ensures forall i, j :: 0 <= i < j < |entries| ==> entries[i].0 != entries[j].0
      ensures forall k, v :: (k, v) in entries <==> k in Contents && Contents[k] == v
    {
      entries := [];
      var l := |values|;
      var i := 0;
      while i < l
        invariant i <= l
        invariant entries == Listed(View(), i)
      {
        if values[i].Some? {
          entries := entries + [(keys[i], values[i].value)];
        }
        i := i + 1;
      }
      if l > 0 {
        ListedAll(View(), Contents);
      }
    }

    method Place(slot: nat, key: Key, value: V)
      requires slot < keys.Length == |values|
      modifies this`values, keys
      ensures values == old(values)[slot := Some(value)] && View() == old(View()).Put(slot, key, value)
    {
      values := values[slot := Some(value)];
      keys[slot] := key;
    }

    /** A nearer entry gives way, and is the one in hand afterwards. */
    method Displace(slot: nat, key: Key, value: V, ghost distance: nat) returns (otherKey: Key, otherValue: V)
      requires InOrder() && distance < |values| && slot == Walk(Preferred(key, |values|), distance, |values|)
      requires values[slot].Some? && View().Displacement(slot) < distance && View().Passed(key, distance)
      requires key !in Contents
      modifies this`values, this`Contents, keys
      ensures InOrder() && values == old(values)[slot := Some(value)]
      ensures otherKey == old(keys[slot]) && Contents[otherKey := otherValue] == old(Contents)[key := value]
      ensures old(View().Displacement(slot)) + 1 <= |values|
      ensures View().Passed(otherKey, old(View().Displacement(slot)) + 1)
      ensures View().NotBefore(otherKey, old(View().Displacement(slot)) + 1)
    {
      hide Preferred, Pow2, Ordered, Table.Passed, Table.NotBefore, Distance, Walk;
      ghost var t, m := View(), Contents;
      EnterOverOther(t, m, key, distance, value);
      otherKey, otherValue := keys[slot], values[slot].value;
      Place(slot, key, value);
      Contents := (m - {otherKey})[key := value];
    }

    /** Insertion into a table with room. */
    method SetNoGrow(newKey: Key, newValue: V)
      requires InOrder() && size < |values|
      modifies this`values, this`size, this`Contents, keys
      ensures InOrder()
      ensures Contents == old(Contents)[newKey := newValue]
    {
      hide Preferred, Pow2, Ordered, Table.Passed, Table.NotBefore, Distance, Walk, Next, FullSlots;
      var l := Pow2(capacityClass);
      var key, value := newKey, newValue;
      var slot := Preferred(key, l);
      var distance := 0;
      ghost var empty := EmptySlot(View(), Contents);
      SearchStart(View(), key);
      while distance < l
        invariant InOrder() && l == |values| && keys == old(keys)
        invariant distance <= l && slot == Walk(Preferred(key, l), distance, l)
        invariant View().NotBefore(key, distance) && View().Passed(key, distance)
        invariant Contents[key := value] == old(Contents)[newKey := newValue]
        invariant empty < l && values[empty].None?
        decreases Distance(slot, empty, l)
      {
        ghost var t, m := View(), Contents;
        if values[slot].None? {
          StopMeansAbsent(t, m, key, distance);
          EnterInEmptySlot(t, m, key, distance, value);
          Place(slot, key, value);
          size := size + 1;
          Contents := m[key := value];
          return;
        } else if keys[slot] == key {
          EnterOverSameKey(t, m, slot, value);
          values := values[slot := Some(value)];
          assert View() == t.Put(slot, key, value);
          Contents := m[key := value];
          return;
        } else {
          var otherDistance := Distance(Preferred(keys[slot], l), slot, l);
          if distance > otherDistance {
            StopMeansAbsent(t, m, key, distance);
            key, value := Displace(slot, key, value, distance);
            distance := otherDistance;
            OneStepOn(Preferred(key, l), slot, distance, empty, l);
          } else {
            NotHereMeansLater(t, key, distance);
            OneStepOn(Preferred(key, l), slot, distance, empty, l);
          }
          distance := distance + 1;
          slot := Next(slot, l);
        }
      }
      AllPassedMeansFull(View(), key, empty);
    }

    method Grow()
      requires Valid()
      modifies this
      ensures InOrder() && capacityClass > 0 && fresh(keys)
      ensures Contents == old(Contents) && size < |values|
    {
      hide Ordered;
      ghost var t, m := View(), Contents;
      var oldKeys, oldValues := keys, values;
      var l := |oldValues|;
      capacityClass := capacityClass + 1;
      var capacity := Pow2(capacityClass);
      keys := new Key[capacity](_ => ZERO);
      values := seq(capacity, _ => None);
      size := 0;
      Contents := map[];
      EmptyInOrder(View());
      assert l < capacity;
      hide Pow2;
      var i := 0;
      while i < l
        invariant i <= l && InOrder() && |values| == capacity && fresh(keys) && capacityClass == old(capacityClass) + 1
        invariant oldKeys[..] == t.keys && oldKeys != keys
        invariant size <= i && Contents == EnteredBelow(t, i)
      {
        if oldValues[i].Some? {
          SetNoGrow(oldKeys[i], oldValues[i].value);
        }
        i := i + 1;
      }
      if l > 0 {
        EnteredAll(t, m);
      }
    }

    /** Growing doubles the table whenever it is nine tenths full, and enters everything again. */
    method Set(key: Key, value: V)
      requires Valid()
      modifies this, keys
      ensures Valid() && (keys == old(keys) || fresh(keys))
      ensures Contents == old(Contents)[key := value]
    {
      hide Pow2, Ordered;
      if size * 10 >= |values| * 9 {
        Grow();
      }
      SetNoGrow(key, value);
    }
  }
}
