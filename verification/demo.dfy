/**
 * The scenario at the end of HashMap.js, replayed on the model: three
 * insertions, lookups, one removal, the enumerations and a clear, for the
 * map and for the set.
 */
module Demo {

  import opened Wrappers
  import opened Hashing
  import opened Buckets
  import HashMap
  import HashSet

  /** "key1" to "key4" as UTF-16 code units. */
  const MapKey1: Key := [107, 101, 121, 49]
  const MapKey2: Key := [107, 101, 121, 50]
  const MapKey3: Key := [107, 101, 121, 51]
  const MapKey4: Key := [107, 101, 121, 52]

  /** "hashSet: key" as UTF-16 code units, the common prefix of the set's keys. */
  const SetPrefix: Key := [104, 97, 115, 104, 83, 101, 116, 58, 32, 107, 101, 121]
  const SetKey1: Key := SetPrefix + [49]
  const SetKey2: Key := SetPrefix + [50]
  const SetKey3: Key := SetPrefix + [51]
  const SetKey4: Key := SetPrefix + [52]

  /** At capacity 16, "key1" to "key4" land in slots 2 to 5. */
  lemma MapKeySlots()
    ensures Hash(MapKey1, 16) == 2 && Hash(MapKey2, 16) == 3
    ensures Hash(MapKey3, 16) == 4 && Hash(MapKey4, 16) == 5
  {
    var stem: Key := [107, 101, 121];
    assert Hash(stem, 16) == 15 by {
      assert stem[..2] == [107, 101] && stem[..2][..1] == [107] && stem[..2][..1][..0] == [];
    }
    assert MapKey1[..3] == stem && MapKey2[..3] == stem && MapKey3[..3] == stem && MapKey4[..3] == stem;
  }

  /** At capacity 16, "hashSet: key1" to "hashSet: key4" land in slots 12 to 15. */
  lemma SetKeySlots()
    ensures Hash(SetKey1, 16) == 12 && Hash(SetKey2, 16) == 13
    ensures Hash(SetKey3, 16) == 14 && Hash(SetKey4, 16) == 15
  {
    var p := SetPrefix;
    assert p[..1][..0] == p[..0];
    assert Hash(p[..1], 16) == 8;
    assert p[..2][..1] == p[..1];
    assert Hash(p[..2], 16) == 9;
    assert p[..3][..2] == p[..2];
    assert Hash(p[..3], 16) == 10;
    assert p[..4][..3] == p[..3];
    assert Hash(p[..4], 16) == 14;
    assert p[..5][..4] == p[..4];
    assert Hash(p[..5], 16) == 5;
    assert p[..6][..5] == p[..5];
    assert Hash(p[..6], 16) == 0;
    assert p[..7][..6] == p[..6];
    assert Hash(p[..7], 16) == 4;
    assert p[..8][..7] == p[..7];
    assert Hash(p[..8], 16) == 6;
    assert p[..9][..8] == p[..8];
    assert Hash(p[..9], 16) == 10;
    assert p[..10][..9] == p[..9];
    assert Hash(p[..10], 16) == 1;
    assert p[..11][..10] == p[..10];
    assert Hash(p[..11], 16) == 4;
    assert p[..12][..11] == p[..11];
    assert Hash(p[..12], 16) == 5;
    assert p[..12] == p;
    assert SetKey1[..12] == SetPrefix && SetKey2[..12] == SetPrefix;
    assert SetKey3[..12] == SetPrefix && SetKey4[..12] == SetPrefix;
  }

  /** Setting a key whose slot is absent creates that slot with the one entry. */
  lemma SetIntoAbsentSlot<V>(t: HashMap.Table<V>, key: Key, value: V)
    requires |t.buckets| > 0 && t.buckets[HashMap.Slot(t, key)] == None
    ensures HashMap.Set(t, key, value).table
      == HashMap.Table(t.buckets[HashMap.Slot(t, key) := Some([HashMap.Entry(key, value)])], t.size + 1)
  {
    assert [] + [HashMap.Entry(key, value)] == [HashMap.Entry(key, value)];
  }

  /** Removing the only entry of a slot marks the slot absent. */
  lemma RemoveSingleEntry<V>(t: HashMap.Table<V>, key: Key, value: V)
    requires |t.buckets| > 0 && t.buckets[HashMap.Slot(t, key)] == Some([HashMap.Entry(key, value)])
    ensures HashMap.Remove(t, key).table == HashMap.Table(t.buckets[HashMap.Slot(t, key) := None], t.size - 1)
  {
    assert HashMap.Find([HashMap.Entry(key, value)], key) == Some(0);
  }

  /** Adding a key whose slot is absent creates that slot with the one key. */
  lemma AddIntoAbsentSlot(t: HashSet.Table, key: Key)
    requires |t.buckets| > 0 && t.buckets[HashSet.Slot(t, key)] == None
    ensures HashSet.Add(t, key).table == HashSet.Table(t.buckets[HashSet.Slot(t, key) := Some([key])], t.size + 1)
  {
    assert [] + [key] == [key];
  }

  /** Removing the only key of a slot marks the slot absent. */
  lemma RemoveSingleKey(t: HashSet.Table, key: Key)
    requires |t.buckets| > 0 && t.buckets[HashSet.Slot(t, key)] == Some([key])
    ensures HashSet.Remove(t, key).table == HashSet.Table(t.buckets[HashSet.Slot(t, key) := None], t.size - 1)
  {
    assert HashSet.IndexOf([key], key) == Some(0);
  }

  /** A bucket array with only one present slot enumerates that slot. */
  lemma {:induction false} FlattenOneSlot<E>(bs: seq<Bucket<E>>, a: nat)
    requires a < |bs|
    requires forall i :: 0 <= i < |bs| && i != a ==> bs[i] == None
    ensures Flatten(bs) == Contents(bs[a])
    decreases a
  {
    var tail := bs[1..];
    if a == 0 {
      assert forall i :: 0 <= i < |tail| ==> tail[i] == bs[i + 1];
      FlattenAbsent(tail);
      assert Contents(bs[0]) + [] == Contents(bs[0]);
    } else {
      assert forall i :: 0 <= i < |tail| && i != a - 1 ==> tail[i] == bs[i + 1];
      FlattenOneSlot(tail, a - 1);
      assert tail[a - 1] == bs[a];
      assert Contents(bs[0]) == [];
    }
  }

  /** A bucket array with only two present slots enumerates those two slots in order. */
  lemma {:induction false} FlattenTwoSlots<E>(bs: seq<Bucket<E>>, a: nat, b: nat)
    requires a < b < |bs|
    requires forall i :: 0 <= i < |bs| && i != a && i != b ==> bs[i] == None
    ensures Flatten(bs) == Contents(bs[a]) + Contents(bs[b])
    decreases a
  {
    var tail := bs[1..];
    if a == 0 {
      assert forall i :: 0 <= i < |tail| && i != b - 1 ==> tail[i] == bs[i + 1];
      FlattenOneSlot(tail, b - 1);
      assert tail[b - 1] == bs[b];
    } else {
      assert forall i :: 0 <= i < |tail| && i != a - 1 && i != b - 1 ==> tail[i] == bs[i + 1];
      FlattenTwoSlots(tail, a - 1, b - 1);
      assert tail[a - 1] == bs[a] && tail[b - 1] == bs[b];
      assert Contents(bs[0]) == [];
    }
  }

  /** The map's bucket array after the three insertions: one entry in each of slots 2, 3 and 4. */
  const MapLayoutAfterInserts: seq<Bucket<HashMap.Entry<string>>> := Absent(16)
    [2 := Some([HashMap.Entry(MapKey1, "value1")])]
    [3 := Some([HashMap.Entry(MapKey2, "value2")])]
    [4 := Some([HashMap.Entry(MapKey3, "value3")])]

  /** The map's bucket array after the removal: "key1" in slot 2, "key3" in slot 4. */
  const MapLayoutAfterRemove: seq<Bucket<HashMap.Entry<string>>> := Absent(16)
    [2 := Some([HashMap.Entry(MapKey1, "value1")])]
    [4 := Some([HashMap.Entry(MapKey3, "value3")])]

  /** The set's bucket array after the three insertions: one key in each of slots 12, 13 and 14. */
  const SetLayoutAfterInserts: seq<Bucket<Key>> := Absent(16)
    [12 := Some([SetKey1])][13 := Some([SetKey2])][14 := Some([SetKey3])]

  /** The set's bucket array after the removal: "hashSet: key1" in slot 12, "hashSet: key3" in slot 14. */
  const SetLayoutAfterRemove: seq<Bucket<Key>> := Absent(16)
    [12 := Some([SetKey1])][14 := Some([SetKey3])]

  function MapAfterInserts(): HashMap.Table<string>
  {
    var t := HashMap.New();
    var t := HashMap.Set(t, MapKey1, "value1").table;
    var t := HashMap.Set(t, MapKey2, "value2").table;
    HashMap.Set(t, MapKey3, "value3").table
  }

  function MapAfterRemove(): HashMap.Table<string>
  {
    HashMap.Remove(MapAfterInserts(), MapKey2).table
  }

  /** The three insertions fill slots 2, 3 and 4 of a fresh map. */
  lemma MapInsertLayout()
    ensures MapAfterInserts() == HashMap.Table(MapLayoutAfterInserts, 3)
  {
    MapKeySlots();
    var t0 := HashMap.New<string>();
    SetIntoAbsentSlot(t0, MapKey1, "value1");
    var t1 := HashMap.Set(t0, MapKey1, "value1").table;
    SetIntoAbsentSlot(t1, MapKey2, "value2");
    var t2 := HashMap.Set(t1, MapKey2, "value2").table;
    SetIntoAbsentSlot(t2, MapKey3, "value3");
  }

  /** Removing "key2" from the three-entry layout empties slot 3. */
  lemma MapRemoveStep(t: HashMap.Table<string>)
    requires t == HashMap.Table(MapLayoutAfterInserts, 3)
    ensures HashMap.Remove(t, MapKey2).table == HashMap.Table(MapLayoutAfterRemove, 2)
  {
    MapKeySlots();
    RemoveSingleEntry(t, MapKey2, "value2");
    var after := t.buckets[3 := None];
    assert |after| == |MapLayoutAfterRemove|;
    assert forall i :: 0 <= i < |after| ==> after[i] == MapLayoutAfterRemove[i];
  }

  /** The bucket arrays the map half of the scenario builds. */
  lemma MapLayout()
    ensures MapAfterInserts() == HashMap.Table(MapLayoutAfterInserts, 3)
    ensures MapAfterRemove() == HashMap.Table(MapLayoutAfterRemove, 2)
  {
    MapInsertLayout();
    MapRemoveStep(MapAfterInserts());
  }

  /** A slot holding just one entry answers a lookup of that entry's key with its value. */
  lemma GetSingle<V>(t: HashMap.Table<V>, key: Key, value: V)
    requires |t.buckets| > 0 && t.buckets[HashMap.Slot(t, key)] == Some([HashMap.Entry(key, value)])
    ensures HashMap.Get(t, key) == Some(value)
  {
    assert HashMap.Find([HashMap.Entry(key, value)], key) == Some(0);
  }

  /** The lookups on the three-entry layout. */
  lemma InsertedLookups(t: HashMap.Table<string>)
    requires t == HashMap.Table(MapLayoutAfterInserts, 3)
    ensures HashMap.Length(t) == 3
    ensures HashMap.Get(t, MapKey1) == Some("value1")
    ensures HashMap.Get(t, MapKey2) == Some("value2")
    ensures HashMap.Get(t, MapKey3) == Some("value3")
    ensures HashMap.Has(t, MapKey1) && !HashMap.Has(t, MapKey4)
  {
    MapKeySlots();
    GetSingle(t, MapKey1, "value1");
    GetSingle(t, MapKey2, "value2");
    GetSingle(t, MapKey3, "value3");
    assert t.buckets[5] == None;
  }

  /** The lookups on the layout left by the removal. */
  lemma RemovedLookups(t: HashMap.Table<string>)
    requires t == HashMap.Table(MapLayoutAfterRemove, 2)
    ensures HashMap.Length(t) == 2
    ensures HashMap.Get(t, MapKey2) == None
    ensures HashMap.Length(HashMap.Clear(t)) == 0
  {
    MapKeySlots();
    assert t.buckets[3] == None;
  }

  /** The lookups of the map half of the scenario, with the results its comments announce. */
  lemma MapLookups()
    ensures HashMap.Length(MapAfterInserts()) == 3
    ensures HashMap.Get(MapAfterInserts(), MapKey1) == Some("value1")
    ensures HashMap.Get(MapAfterInserts(), MapKey2) == Some("value2")
    ensures HashMap.Get(MapAfterInserts(), MapKey3) == Some("value3")
    ensures HashMap.Has(MapAfterInserts(), MapKey1) && !HashMap.Has(MapAfterInserts(), MapKey4)
    ensures HashMap.Length(MapAfterRemove()) == 2
    ensures HashMap.Get(MapAfterRemove(), MapKey2) == None
    ensures HashMap.Length(HashMap.Clear(MapAfterRemove())) == 0
  {
    MapLayout();
    InsertedLookups(MapAfterInserts());
    RemovedLookups(MapAfterRemove());
  }

  /** What the three enumerations read off the bucket array left by the removal. */
  lemma MapLayoutEnumerations(t: HashMap.Table<string>)
    requires t == HashMap.Table(MapLayoutAfterRemove, 2)
    ensures HashMap.Keys(t) == [MapKey1, MapKey3]
    ensures HashMap.Values(t) == ["value1", "value3"]
    ensures HashMap.Entries(t) == [HashMap.Entry(MapKey1, "value1"), HashMap.Entry(MapKey3, "value3")]
  {
    var bs := MapLayoutAfterRemove;
    assert forall i :: 0 <= i < 16 && i != 2 && i != 4 ==> bs[i] == None;
    FlattenTwoSlots(bs, 2, 4);
  }

  /** The enumerations after the removal: `[key1, key3]`, `[value1, value3]` and their pairs. */
  lemma MapEnumerations()
    ensures HashMap.Keys(MapAfterRemove()) == [MapKey1, MapKey3]
    ensures HashMap.Values(MapAfterRemove()) == ["value1", "value3"]
    ensures HashMap.Entries(MapAfterRemove()) == [HashMap.Entry(MapKey1, "value1"), HashMap.Entry(MapKey3, "value3")]
  {
    MapLayout();
    MapLayoutEnumerations(MapAfterRemove());
  }

  function SetAfterInserts(): HashSet.Table
  {
    var t := HashSet.New();
    var t := HashSet.Add(t, SetKey1).table;
    var t := HashSet.Add(t, SetKey2).table;
    HashSet.Add(t, SetKey3).table
  }

  function SetAfterRemove(): HashSet.Table
  {
    HashSet.Remove(SetAfterInserts(), SetKey2).table
  }

  /** The three insertions fill slots 12, 13 and 14 of a fresh set. */
  lemma SetInsertLayout()
    ensures SetAfterInserts() == HashSet.Table(SetLayoutAfterInserts, 3)
  {
    SetKeySlots();
    var t0 := HashSet.New();
    AddIntoAbsentSlot(t0, SetKey1);
    var t1 := HashSet.Add(t0, SetKey1).table;
    AddIntoAbsentSlot(t1, SetKey2);
    var t2 := HashSet.Add(t1, SetKey2).table;
    AddIntoAbsentSlot(t2, SetKey3);
  }

  /** Removing "hashSet: key2" from the three-key layout empties slot 13. */
  lemma SetRemoveStep(t: HashSet.Table)
    requires t == HashSet.Table(SetLayoutAfterInserts, 3)
    ensures HashSet.Remove(t, SetKey2).table == HashSet.Table(SetLayoutAfterRemove, 2)
  {
    SetKeySlots();
    RemoveSingleKey(t, SetKey2);
    var after := t.buckets[13 := None];
    assert |after| == |SetLayoutAfterRemove|;
    assert forall i :: 0 <= i < |after| ==> after[i] == SetLayoutAfterRemove[i];
  }

  /** The bucket arrays the set half of the scenario builds. */
  lemma SetLayout()
    ensures SetAfterInserts() == HashSet.Table(SetLayoutAfterInserts, 3)
    ensures SetAfterRemove() == HashSet.Table(SetLayoutAfterRemove, 2)
  {
    SetInsertLayout();
    SetRemoveStep(SetAfterInserts());
  }

  /** The membership tests and `keys` on the three-key layout and on the layout left by the removal. */
  lemma SetLayoutQueries(t: HashSet.Table, u: HashSet.Table)
    requires t == HashSet.Table(SetLayoutAfterInserts, 3)
    requires u == HashSet.Table(SetLayoutAfterRemove, 2)
    ensures HashSet.Length(t) == 3
    ensures HashSet.Has(t, SetKey1) && !HashSet.Has(t, SetKey4)
    ensures HashSet.Length(u) == 2
    ensures !HashSet.Has(u, SetKey2)
    ensures HashSet.Keys(u) == [SetKey1, SetKey3]
    ensures HashSet.Length(HashSet.Clear(u)) == 0
  {
    SetKeySlots();
    assert t.buckets[12] == Some([SetKey1]) && t.buckets[15] == None;
    assert u.buckets[13] == None;
    var bs := SetLayoutAfterRemove;
    assert forall i :: 0 <= i < 16 && i != 12 && i != 14 ==> bs[i] == None;
    FlattenTwoSlots(bs, 12, 14);
  }

  /** The set half of the scenario, with the results its comments announce. */
  lemma SetScenario()
    ensures HashSet.Length(SetAfterInserts()) == 3
    ensures HashSet.Has(SetAfterInserts(), SetKey1) && !HashSet.Has(SetAfterInserts(), SetKey4)
    ensures HashSet.Length(SetAfterRemove()) == 2
    ensures !HashSet.Has(SetAfterRemove(), SetKey2)
    ensures HashSet.Keys(SetAfterRemove()) == [SetKey1, SetKey3]
    ensures HashSet.Length(HashSet.Clear(SetAfterRemove())) == 0
  {
    SetLayout();
    SetLayoutQueries(SetAfterInserts(), SetAfterRemove());
  }

}
