/**
 * `HashMap()` of HashMap.js: a separately chained table from string keys to
 * values. The closure state becomes an immutable record, and every mutating
 * operation returns the new record.
 */
module HashMap {

  import opened Wrappers
  import opened Hashing
  import opened Buckets

  /** A stored `[key, value]` pair. */
  datatype Entry<V> = Entry(key: Key, value: V)

  /** The closure state: the bucket array (whose length is the capacity) and `size`. */
  datatype Table<V> = Table(buckets: seq<Bucket<Entry<V>>>, size: int)

  /** The table after `set`, and whether `set` returned or threw from `resize`. */
  datatype SetResult<V> = SetResult(table: Table<V>, outcome: Outcome)

  /** The table after `remove`, and the boolean `remove` returns. */
  datatype RemoveResult<V> = RemoveResult(table: Table<V>, removed: bool)

  /** A fresh map: 16 absent slots and size 0. */
  function New<V>(): (t: Table<V>)
    ensures |t.buckets| == InitialCapacity && Length(t) == 0
    ensures forall k :: Get(t, k) == None
  {
    Table(Absent(InitialCapacity), 0)
  }

  /** The slot `hash` selects for `key` at the table's current capacity. */
  function Slot<V>(t: Table<V>, key: Key): (i: nat)
    requires |t.buckets| > 0
    ensures i < |t.buckets|
  {
    Hash(key, |t.buckets|)
  }

  /** The linear scan of a bucket: the position of the first entry with the key, if any. */
  function Find<V>(es: seq<Entry<V>>, key: Key): (r: Option<nat>)
    ensures r.Some? ==> r.value < |es| && es[r.value].key == key
    ensures r.Some? ==> forall j :: 0 <= j < r.value ==> es[j].key != key
    ensures r.None? <==> forall j :: 0 <= j < |es| ==> es[j].key != key
    decreases |es|
  {
    if |es| == 0 then None
    else if es[0].key == key then Some(0)
    else match Find(es[1..], key)
      case None => None
      case Some(i) => Some(i + 1)
  }

  /** The value of the first entry with the key, if any. */
  function Scan<V>(es: seq<Entry<V>>, key: Key): Option<V>
  {
    match Find(es, key)
    case None => None
    case Some(i) => Some(es[i].value)
  }

  /** The scan stops at the first entry with the key, and only there. */
  lemma FindIs<V>(es: seq<Entry<V>>, key: Key, i: nat)
    requires i < |es| && es[i].key == key
    requires forall j :: 0 <= j < i ==> es[j].key != key
    ensures Find(es, key) == Some(i)
  {
    var r := Find(es, key);
    assert r.Some?;
  }

  /** Two bucket lists with the same keys position by position scan alike. */
  lemma {:induction false} FindSameKeys<V>(a: seq<Entry<V>>, b: seq<Entry<V>>, key: Key)
    requires |a| == |b|
    requires forall j :: 0 <= j < |a| ==> a[j].key == b[j].key
    ensures Find(a, key) == Find(b, key)
    decreases |a|
  {
    if |a| > 0 {
      FindSameKeys(a[1..], b[1..], key);
    }
  }

  /** Overwriting the value of the first entry with `key` changes the scan for `key` only. */
  lemma ScanOverwrite<V>(es: seq<Entry<V>>, i: nat, key: Key, value: V)
    requires Find(es, key) == Some(i)
    ensures forall k :: Scan(es[i := Entry(key, value)], k) == if k == key then Some(value) else Scan(es, k)
  {
    var es' := es[i := Entry(key, value)];
    forall k ensures Scan(es', k) == if k == key then Some(value) else Scan(es, k) {
      FindSameKeys(es', es, k);
    }
  }

  /** Appending an entry for a key the bucket lacks changes the scan for that key only. */
  lemma ScanAppend<V>(es: seq<Entry<V>>, key: Key, value: V)
    requires Find(es, key) == None
    ensures forall k :: Scan(es + [Entry(key, value)], k) == if k == key then Some(value) else Scan(es, k)
  {
    var es' := es + [Entry(key, value)];
    forall k ensures Scan(es', k) == if k == key then Some(value) else Scan(es, k) {
      match Find(es, k)
      case Some(j) =>
        assert es'[j] == es[j];
        assert Find(es', k) == Some(j);
      case None =>
        if k == key {
          FindIs(es', k, |es|);
        } else {
          assert Find(es', k) == None;
        }
    }
  }

  /** Splicing out the entry at `i` of a bucket without repeated keys removes exactly that key. */
  lemma ScanSplice<V>(es: seq<Entry<V>>, i: nat)
    requires i < |es| && UniqueKeys(es)
    ensures forall k :: Scan(Splice(es, i), k) == if k == es[i].key then None else Scan(es, k)
  {
    var es' := Splice(es, i);
    forall k ensures Scan(es', k) == if k == es[i].key then None else Scan(es, k) {
      match Find(es, k)
      case Some(j) =>
        if j < i {
          FindIs(es', k, j);
        } else if j > i {
          FindIs(es', k, j - 1);
        } else {
          assert Find(es', k) == None;
        }
      case None =>
        assert Find(es', k) == None;
    }
  }

  /** `has`: the selected slot is present and holds an entry with the key. */
  predicate Has<V>(t: Table<V>, key: Key)
    requires |t.buckets| > 0
  {
    var b := t.buckets[Slot(t, key)];
    b.Some? && exists j :: 0 <= j < |b.value| && b.value[j].key == key
  }

  /**
   * `get`: the value stored under the key in its slot; `None` where the
   * JavaScript returns `null`.
   */
  function Get<V>(t: Table<V>, key: Key): (r: Option<V>)
    requires |t.buckets| > 0
    ensures r.Some? <==> Has(t, key)
    ensures r.Some? ==> Entry(key, r.value) in Contents(t.buckets[Slot(t, key)])
  {
    Scan(Contents(t.buckets[Slot(t, key)]), key)
  }

  /**
   * `set`: overwrites the value of an entry with the key in place, or appends a
   * new entry to the key's slot (created if absent) and grows `size` by one,
   * after which crossing the load factor makes `resize` throw.
   */
  function Set<V>(t: Table<V>, key: Key, value: V): (r: SetResult<V>)
    requires |t.buckets| > 0
    ensures |r.table.buckets| == |t.buckets|
    ensures Get(r.table, key) == Some(value)
    ensures Has(t, key) ==> r.table.size == t.size && r.outcome == Ok
    ensures !Has(t, key) ==> r.table.size == t.size + 1
    ensures !Has(t, key) ==> (r.outcome == ResizeThrew <==> LoadExceeded(t.size + 1, |t.buckets|))
  {
    var h := Slot(t, key);
    var es := Contents(t.buckets[h]);
    match Find(es, key)
    case Some(i) =>
      ScanOverwrite(es, i, key, value);
      SetResult(Table(t.buckets[h := Some(es[i := Entry(key, value)])], t.size), Ok)
    case None =>
      ScanAppend(es, key, value);
      var t' := Table(t.buckets[h := Some(es + [Entry(key, value)])], t.size + 1);
      SetResult(t', if LoadExceeded(t'.size, |t'.buckets|) then ResizeThrew else Ok)
  }

  /**
   * `remove`: splices the first entry with the key out of its slot, marks the
   * slot absent when it empties, decrements `size` and reports true; a missing
   * key reports false and changes nothing.
   */
  function Remove<V>(t: Table<V>, key: Key): (r: RemoveResult<V>)
    requires |t.buckets| > 0
    ensures r.removed == Has(t, key)
    ensures |r.table.buckets| == |t.buckets|
    ensures r.removed ==> r.table.size == t.size - 1
    ensures !r.removed ==> r.table == t
  {
    var h := Slot(t, key);
    match t.buckets[h]
    case None => RemoveResult(t, false)
    case Some(es) =>
      match Find(es, key)
      case None => RemoveResult(t, false)
      case Some(i) =>
        var rest := Splice(es, i);
        RemoveResult(Table(t.buckets[h := if |rest| == 0 then None else Some(rest)], t.size - 1), true)
  }

  /** `length`. */
  function Length<V>(t: Table<V>): int
  {
    t.size
  }

  /** `clear`: every slot absent and `size` 0, at the same capacity. */
  function Clear<V>(t: Table<V>): (r: Table<V>)
    ensures |r.buckets| == |t.buckets| && Length(r) == 0
    ensures |t.buckets| > 0 ==> forall k :: Get(r, k) == None
  {
    Table(Absent(|t.buckets|), 0)
  }

  /** `entries`: the entries of every present slot, in slot order. */
  function Entries<V>(t: Table<V>): seq<Entry<V>>
  {
    Flatten(t.buckets)
  }

  /** The keys of a bucket array, slot by slot, as the `reduce` in `keys` collects them. */
  function KeysOf<V>(bs: seq<Bucket<Entry<V>>>): (r: seq<Key>)
    ensures |r| == |Flatten(bs)|
    ensures forall i :: 0 <= i < |r| ==> r[i] == Flatten(bs)[i].key
    decreases |bs|
  {
    if |bs| == 0 then []
    else
      var here := match bs[0] case None => [] case Some(es) => seq(|es|, i requires 0 <= i < |es| => es[i].key);
      here + KeysOf(bs[1..])
  }

  /** The values of a bucket array, slot by slot, as the `reduce` in `values` collects them. */
  function ValuesOf<V>(bs: seq<Bucket<Entry<V>>>): (r: seq<V>)
    ensures |r| == |Flatten(bs)|
    ensures forall i :: 0 <= i < |r| ==> r[i] == Flatten(bs)[i].value
    decreases |bs|
  {
    if |bs| == 0 then []
    else
      var here := match bs[0] case None => [] case Some(es) => seq(|es|, i requires 0 <= i < |es| => es[i].value);
      here + ValuesOf(bs[1..])
  }

  /** `keys`: the key side of `entries`, position by position. */
  function Keys<V>(t: Table<V>): (r: seq<Key>)
    ensures |r| == |Entries(t)|
    ensures forall i :: 0 <= i < |r| ==> r[i] == Entries(t)[i].key
  {
    KeysOf(t.buckets)
  }

  /** `values`: the value side of `entries`, position by position. */
  function Values<V>(t: Table<V>): (r: seq<V>)
    ensures |r| == |Entries(t)|
    ensures forall i :: 0 <= i < |r| ==> r[i] == Entries(t)[i].value
  {
    ValuesOf(t.buckets)
  }

  /** No key occurs in two entries of `es`. */
  predicate UniqueKeys<V>(es: seq<Entry<V>>)
  {
    forall i, j :: 0 <= i < j < |es| ==> es[i].key != es[j].key
  }

  /** Every entry in a slot lies where the hash at capacity `cap` puts its key, counting slots from `off`. */
  ghost predicate PlacedFrom<V>(bs: seq<Bucket<Entry<V>>>, cap: nat, off: nat)
    requires cap > 0
  {
    forall i, j :: 0 <= i < |bs| && 0 <= j < |Contents(bs[i])| ==> Hash(Contents(bs[i])[j].key, cap) == off + i
  }

  /**
   * The representation invariant: a positive capacity, no present-but-empty
   * slot, every entry in the slot its key's hash selects, no key twice in a
   * slot, and `size` counting every stored entry.
   */
  ghost predicate Valid<V>(t: Table<V>)
  {
    var bs := t.buckets;
    && |bs| > 0
    && (forall i :: 0 <= i < |bs| ==> bs[i] != Some([]))
    && PlacedFrom(bs, |bs|, 0)
    && (forall i :: 0 <= i < |bs| ==> UniqueKeys(Contents(bs[i])))
    && t.size == |Flatten(bs)|
  }

  /** The map a sequence of entries denotes; the first entry with a key wins, as in a scan. */
  function MapOf<V>(es: seq<Entry<V>>): map<Key, V>
    decreases |es|
  {
    if |es| == 0 then map[] else MapOf(es[1..])[es[0].key := es[0].value]
  }

  /** The abstract value: the stored entries as a map. */
  function Model<V>(t: Table<V>): map<Key, V>
  {
    MapOf(Entries(t))
  }

  /** Looking a key up in a map, as an optional value. */
  function MapGet<V>(m: map<Key, V>, key: Key): Option<V>
  {
    if key in m then Some(m[key]) else None
  }

  /** Scanning a concatenation scans the first part, then the second. */
  lemma ScanConcat<V>(a: seq<Entry<V>>, b: seq<Entry<V>>, key: Key)
    ensures Scan(a + b, key) == if Scan(a, key).Some? then Scan(a, key) else Scan(b, key)
  {
    var ab := a + b;
    match Find(a, key)
    case Some(i) =>
      FindIs(ab, key, i);
    case None =>
      match Find(b, key)
      case Some(j) =>
        assert ab[|a| + j] == b[j];
        FindIs(ab, key, |a| + j);
      case None =>
        assert forall x :: 0 <= x < |ab| ==> ab[x] == if x < |a| then a[x] else b[x - |a|];
    }

  /** The abstract map of an entry list answers every lookup as a scan of the list does. */
  lemma {:induction false} MapOfScan<V>(es: seq<Entry<V>>, key: Key)
    ensures MapGet(MapOf(es), key) == Scan(es, key)
    decreases |es|
  {
    if |es| > 0 {
      MapOfScan(es[1..], key);
      assert es == [es[0]] + es[1..];
      ScanConcat([es[0]], es[1..], key);
    }
  }

  /** An entry list without repeated keys denotes a map with one key per entry. */
  lemma {:induction false} MapOfCard<V>(es: seq<Entry<V>>)
    requires UniqueKeys(es)
    ensures |MapOf(es)| == |es|
    decreases |es|
  {
    if |es| > 0 {
      var tail := es[1..];
      MapOfCard(tail);
      MapOfScan(tail, es[0].key);
      assert Find(tail, es[0].key) == None by {
        assert forall j :: 0 <= j < |tail| ==> tail[j] == es[j + 1];
      }
      assert MapOf(es).Keys == MapOf(tail).Keys + {es[0].key};
    }
  }

  /** Slots that hold no entry with the key enumerate no entry with it. */
  lemma ScanFlattenMissing<V>(bs: seq<Bucket<Entry<V>>>, key: Key)
    requires forall i, j :: 0 <= i < |bs| && 0 <= j < |Contents(bs[i])| ==> Contents(bs[i])[j].key != key
    ensures Scan(Flatten(bs), key) == None
  {
    var es := Flatten(bs);
    forall x | 0 <= x < |es| ensures es[x].key != key {
      FlattenMember(bs, es[x]);
      var i :| 0 <= i < |bs| && es[x] in Contents(bs[i]);
      var j :| 0 <= j < |Contents(bs[i])| && Contents(bs[i])[j] == es[x];
    }
  }

  /** When only slot `h` can hold the key, scanning the whole enumeration scans that slot. */
  lemma ScanFlatten<V>(bs: seq<Bucket<Entry<V>>>, key: Key, h: nat)
    requires h < |bs|
    requires forall i, j :: 0 <= i < |bs| && i != h && 0 <= j < |Contents(bs[i])| ==> Contents(bs[i])[j].key != key
    ensures Scan(Flatten(bs), key) == Scan(Contents(bs[h]), key)
  {
    FlattenSplit(bs, h);
    var before, here, after := Flatten(bs[..h]), Contents(bs[h]), Flatten(bs[h + 1..]);
    var left: seq<Bucket<Entry<V>>>, right: seq<Bucket<Entry<V>>> := bs[..h], bs[h + 1..];
    forall i, j | 0 <= i < |left| && 0 <= j < |Contents(left[i])|
      ensures Contents(left[i])[j].key != key
    {
      assert left[i] == bs[i];
    }
    forall i, j | 0 <= i < |right| && 0 <= j < |Contents(right[i])|
      ensures Contents(right[i])[j].key != key
    {
      assert right[i] == bs[h + 1 + i];
    }
    ScanFlattenMissing(bs[..h], key);
    ScanFlattenMissing(bs[h + 1..], key);
    ScanConcat(before + here, after, key);
    ScanConcat(before, here, key);
  }

  /** The hashed lookup agrees with the abstract map. */
  lemma GetModel<V>(t: Table<V>, key: Key)
    requires Valid(t)
    ensures Get(t, key) == MapGet(Model(t), key)
    ensures Has(t, key) <==> key in Model(t)
  {
    var bs := t.buckets;
    MapOfScan(Entries(t), key);
    ScanFlatten(bs, key, Slot(t, key));
  }

  /** Two maps that answer every lookup alike are equal. */
  lemma MapExt<V>(m1: map<Key, V>, m2: map<Key, V>)
    requires forall k :: MapGet(m1, k) == MapGet(m2, k)
    ensures m1 == m2
  {
    assert m1.Keys == m2.Keys by {
      forall k ensures k in m1 <==> k in m2 {
        assert MapGet(m1, k).Some? == MapGet(m2, k).Some?;
      }
    }
    forall k | k in m1 ensures m1[k] == m2[k] {
      assert MapGet(m1, k) == MapGet(m2, k);
    }
  }

  /** Replacing one slot by a well-placed, key-unique, non-empty-if-present bucket keeps the invariant. */
  lemma UpdateSlotValid<V>(t: Table<V>, h: nat, nb: Bucket<Entry<V>>, size': int)
    requires Valid(t) && h < |t.buckets|
    requires nb != Some([])
    requires forall j :: 0 <= j < |Contents(nb)| ==> Hash(Contents(nb)[j].key, |t.buckets|) == h
    requires UniqueKeys(Contents(nb))
    requires size' == t.size - |Contents(t.buckets[h])| + |Contents(nb)|
    ensures Valid(Table(t.buckets[h := nb], size'))
  {
    var bs: seq<Bucket<Entry<V>>> := t.buckets;
    var bs': seq<Bucket<Entry<V>>> := bs[h := nb];
    FlattenUpdate(bs, h, nb);
    assert PlacedFrom(bs', |bs|, 0) by {
      forall i, j | 0 <= i < |bs'| && 0 <= j < |Contents(bs'[i])|
        ensures Hash(Contents(bs'[i])[j].key, |bs|) == i
      {
        if i != h {
          assert bs'[i] == bs[i];
        }
      }
    }
  }

  /** Every key of the bucket hashes to slot `h` at capacity `cap`. */
  ghost predicate KeysHashTo<V>(es: seq<Entry<V>>, cap: nat, h: nat)
    requires cap > 0
  {
    forall j :: 0 <= j < |es| ==> Hash(es[j].key, cap) == h
  }

  /** Overwriting a value keeps a bucket's keys, hence its placement and key uniqueness. */
  lemma OverwriteKeepsBucket<V>(es: seq<Entry<V>>, i: nat, key: Key, value: V, cap: nat, h: nat)
    requires i < |es| && es[i].key == key && cap > 0
    requires UniqueKeys(es)
    requires forall j :: 0 <= j < |es| ==> Hash(es[j].key, cap) == h
    ensures UniqueKeys(es[i := Entry(key, value)])
    ensures KeysHashTo(es[i := Entry(key, value)], cap, h)
  {
    var nb := es[i := Entry(key, value)];
    assert forall j :: 0 <= j < |nb| ==> nb[j].key == es[j].key;
  }

  /** Appending an entry for a key that hashes to the slot and is new to it keeps the bucket well formed. */
  lemma AppendKeepsBucket<V>(es: seq<Entry<V>>, key: Key, value: V, cap: nat, h: nat)
    requires cap > 0 && Hash(key, cap) == h
    requires UniqueKeys(es) && Find(es, key) == None
    requires forall j :: 0 <= j < |es| ==> Hash(es[j].key, cap) == h
    ensures UniqueKeys(es + [Entry(key, value)])
    ensures KeysHashTo(es + [Entry(key, value)], cap, h)
  {
    var nb := es + [Entry(key, value)];
    assert forall j :: 0 <= j < |es| ==> nb[j] == es[j];
  }

  /** `set` keeps the invariant, whatever its outcome. */
  lemma SetValid<V>(t: Table<V>, key: Key, value: V)
    requires Valid(t)
    ensures Valid(Set(t, key, value).table)
  {
    var bs, h := t.buckets, Slot(t, key);
    var es := Contents(bs[h]);
    assert UniqueKeys(es);
    assert forall j :: 0 <= j < |es| ==> Hash(es[j].key, |bs|) == h by {
      assert forall j :: 0 <= j < |es| ==> Contents(bs[h])[j] == es[j];
    }
    match Find(es, key)
    case Some(i) =>
      var nb := es[i := Entry(key, value)];
      assert Set(t, key, value).table == Table(bs[h := Some(nb)], t.size);
      OverwriteKeepsBucket(es, i, key, value, |bs|, h);
      UpdateSlotValid(t, h, Some(nb), t.size);
    case None =>
      var nb := es + [Entry(key, value)];
      assert Set(t, key, value).table == Table(bs[h := Some(nb)], t.size + 1);
      AppendKeepsBucket(es, key, value, |bs|, h);
      UpdateSlotValid(t, h, Some(nb), t.size + 1);
  }

  /** After `set`, the key is bound to the value and every other lookup is as before. */
  lemma SetGet<V>(t: Table<V>, key: Key, value: V, k: Key)
    requires |t.buckets| > 0
    ensures Get(Set(t, key, value).table, k) == if k == key then Some(value) else Get(t, k)
  {
    var bs, h := t.buckets, Slot(t, key);
    var es := Contents(bs[h]);
    match Find(es, key)
    case Some(i) =>
      var nb := es[i := Entry(key, value)];
      assert Set(t, key, value).table.buckets == bs[h := Some(nb)];
      ScanOverwrite(es, i, key, value);
    case None =>
      var nb := es + [Entry(key, value)];
      assert Set(t, key, value).table.buckets == bs[h := Some(nb)];
      ScanAppend(es, key, value);
  }

  /**
   * `set` keeps the invariant and binds the key to the value in the abstract
   * map, leaving every other binding alone, whatever its outcome.
   */
  lemma SetMaintainsInvariant<V>(t: Table<V>, key: Key, value: V)
    requires Valid(t)
    ensures Valid(Set(t, key, value).table)
    ensures Model(Set(t, key, value).table) == Model(t)[key := value]
  {
    var t' := Set(t, key, value).table;
    SetValid(t, key, value);
    forall k ensures MapGet(Model(t'), k) == MapGet(Model(t)[key := value], k) {
      GetModel(t, k);
      GetModel(t', k);
      SetGet(t, key, value, k);
    }
    MapExt(Model(t'), Model(t)[key := value]);
  }

  /** Splicing one entry out of a well-placed, key-unique bucket leaves it well placed and key-unique. */
  lemma SpliceKeepsBucket<V>(es: seq<Entry<V>>, i: nat, cap: nat, h: nat)
    requires i < |es| && cap > 0
    requires UniqueKeys(es)
    requires forall j :: 0 <= j < |es| ==> Hash(es[j].key, cap) == h
    ensures UniqueKeys(Splice(es, i))
    ensures forall j :: 0 <= j < |Splice(es, i)| ==> Hash((Splice(es, i))[j].key, cap) == h
  {
  }

  /** `remove` keeps the invariant. */
  lemma RemoveValid<V>(t: Table<V>, key: Key)
    requires Valid(t)
    ensures Valid(Remove(t, key).table)
  {
    var bs, h := t.buckets, Slot(t, key);
    if Has(t, key) {
      var es := bs[h].value;
      var i := Find(es, key).value;
      var rest := Splice(es, i);
      var nb: Bucket<Entry<V>> := if |rest| == 0 then None else Some(rest);
      assert Remove(t, key).table == Table(bs[h := nb], t.size - 1);
      assert forall j :: 0 <= j < |es| ==> Contents(bs[h])[j] == es[j];
      SpliceKeepsBucket(es, i, |bs|, h);
      UpdateSlotValid(t, h, nb, t.size - 1);
    }
  }

  /** After `remove`, the key is unbound and every other lookup is as before. */
  lemma RemoveGet<V>(t: Table<V>, key: Key, k: Key)
    requires Valid(t)
    ensures Get(Remove(t, key).table, k) == if k == key then None else Get(t, k)
  {
    var bs, h := t.buckets, Slot(t, key);
    if Has(t, key) {
      var es := bs[h].value;
      var i := Find(es, key).value;
      var rest := Splice(es, i);
      var nb: Bucket<Entry<V>> := if |rest| == 0 then None else Some(rest);
      assert Remove(t, key).table.buckets == bs[h := nb];
      assert UniqueKeys(Contents(bs[h]));
      ScanSplice(es, i);
    }
  }

  /**
   * `remove` keeps the invariant, reports whether the key was bound, and
   * unbinds exactly that key in the abstract map.
   */
  lemma RemoveMaintainsInvariant<V>(t: Table<V>, key: Key)
    requires Valid(t)
    ensures Valid(Remove(t, key).table)
    ensures Remove(t, key).removed <==> key in Model(t)
    ensures Model(Remove(t, key).table) == Model(t) - {key}
  {
    var t' := Remove(t, key).table;
    RemoveValid(t, key);
    GetModel(t, key);
    forall k ensures MapGet(Model(t'), k) == MapGet(Model(t) - {key}, k) {
      GetModel(t, k);
      GetModel(t', k);
      RemoveGet(t, key, k);
    }
    MapExt(Model(t'), Model(t) - {key});
  }

  /** A fresh map satisfies the invariant and is empty. */
  lemma NewIsEmpty<V>()
    ensures Valid(New<V>()) && Model(New<V>()) == map[]
  {
    FlattenAbsent(New<V>().buckets);
  }

  /**
   * `clear` yields a valid empty map of the same capacity whose enumerations
   * are empty, and clearing twice equals clearing once.
   */
  lemma ClearMaintainsInvariant<V>(t: Table<V>)
    requires |t.buckets| > 0
    ensures Valid(Clear(t)) && Model(Clear(t)) == map[]
    ensures Entries(Clear(t)) == [] && Keys(Clear(t)) == [] && Values(Clear(t)) == []
    ensures Clear(Clear(t)) == Clear(t)
  {
    FlattenAbsent(Clear(t).buckets);
  }

  /** Slot-wise placement and slot-wise unique keys make the keys of the whole enumeration unique. */
  lemma {:induction false} FlattenUnique<V>(bs: seq<Bucket<Entry<V>>>, cap: nat, off: nat)
    requires cap > 0 && PlacedFrom(bs, cap, off)
    requires forall i :: 0 <= i < |bs| ==> UniqueKeys(Contents(bs[i]))
    ensures UniqueKeys(Flatten(bs))
    ensures forall x :: 0 <= x < |Flatten(bs)| ==> off <= Hash(Flatten(bs)[x].key, cap)
    decreases |bs|
  {
    if |bs| > 0 {
      var head: seq<Entry<V>>, tail: seq<Bucket<Entry<V>>> := Contents(bs[0]), bs[1..];
      assert PlacedFrom(tail, cap, off + 1) by {
        forall i, j | 0 <= i < |tail| && 0 <= j < |Contents(tail[i])|
          ensures Hash(Contents(tail[i])[j].key, cap) == off + 1 + i
        {
          assert tail[i] == bs[i + 1];
        }
      }
      forall i | 0 <= i < |tail| ensures UniqueKeys(Contents(tail[i])) {
        assert tail[i] == bs[i + 1];
      }
      FlattenUnique(tail, cap, off + 1);
      var rest := Flatten(tail);
      var all := head + rest;
      forall x | 0 <= x < |all| ensures off <= Hash(all[x].key, cap) && (x < |head| <==> Hash(all[x].key, cap) == off) {
        if x < |head| {
          assert all[x] == head[x];
        } else {
          assert all[x] == rest[x - |head|];
        }
      }
      forall x, y | 0 <= x < y < |all| ensures all[x].key != all[y].key {
        if y < |head| {
          assert all[x] == head[x] && all[y] == head[y];
        } else if x >= |head| {
          assert all[x] == rest[x - |head|] && all[y] == rest[y - |head|];
        }
      }
    }
  }

  /**
   * `entries` lists every binding of the abstract map exactly once, and
   * `length` counts them.
   */
  lemma EntriesEnumerateModel<V>(t: Table<V>)
    requires Valid(t)
    ensures UniqueKeys(Entries(t))
    ensures |Entries(t)| == Length(t) == |Model(t)|
    ensures forall i :: 0 <= i < |Entries(t)| ==> MapGet(Model(t), Entries(t)[i].key) == Some(Entries(t)[i].value)
    ensures forall k :: k in Model(t) ==> exists i :: 0 <= i < |Entries(t)| && Entries(t)[i].key == k
  {
    var es := Entries(t);
    FlattenUnique(t.buckets, |t.buckets|, 0);
    MapOfCard(es);
    forall i | 0 <= i < |es| ensures MapGet(Model(t), es[i].key) == Some(es[i].value) {
      MapOfScan(es, es[i].key);
      FindIs(es, es[i].key, i);
    }
    forall k | k in Model(t) ensures exists i :: 0 <= i < |es| && es[i].key == k {
      MapOfScan(es, k);
    }
  }

  /** `keys` lists the abstract map's keys, each once, and `values` lists their values in the same order. */
  lemma KeysValuesEnumerateModel<V>(t: Table<V>)
    requires Valid(t)
    ensures |Keys(t)| == |Values(t)| == Length(t) == |Model(t)|
    ensures Distinct(Keys(t))
    ensures forall k :: k in Keys(t) <==> k in Model(t)
    ensures forall i :: 0 <= i < |Keys(t)| ==> Keys(t)[i] in Model(t) && Model(t)[Keys(t)[i]] == Values(t)[i]
  {
    EntriesEnumerateModel(t);
    var es := Entries(t);
    forall k | k in Keys(t) ensures k in Model(t) {
      var i :| 0 <= i < |Keys(t)| && Keys(t)[i] == k;
      assert MapGet(Model(t), es[i].key) == Some(es[i].value);
    }
    forall i | 0 <= i < |Keys(t)| ensures Keys(t)[i] in Model(t) && Model(t)[Keys(t)[i]] == Values(t)[i] {
      assert MapGet(Model(t), es[i].key) == Some(es[i].value);
    }
  }

  /** A key `has` accepts is found by the scan of its slot. */
  lemma HasFinds<V>(t: Table<V>, key: Key)
    requires |t.buckets| > 0 && Has(t, key)
    ensures Find(Contents(t.buckets[Slot(t, key)]), key).Some?
  {
    var es := t.buckets[Slot(t, key)].value;
    var j :| 0 <= j < |es| && es[j].key == key;
  }

  /**
   * Overwriting a present key replaces that one entry's value in place, so
   * `entries` keeps its order and length.
   */
  lemma SetOverwriteEntries<V>(t: Table<V>, key: Key, value: V)
    requires |t.buckets| > 0 && Has(t, key)
    ensures exists i :: 0 <= i < |Entries(t)| && Entries(t)[i].key == key
                     && Entries(Set(t, key, value).table) == Entries(t)[i := Entry(key, value)]
  {
    var bs, h := t.buckets, Slot(t, key);
    var es := Contents(bs[h]);
    HasFinds(t, key);
    var j := Find(es, key).value;
    var nb := es[j := Entry(key, value)];
    assert Set(t, key, value).table.buckets == bs[h := Some(nb)];
    FlattenUpdate(bs, h, Some(nb));
    FlattenSplit(bs, h);
    var a, c := Flatten(bs[..h]), Flatten(bs[h + 1..]);
    ConcatUpdate(a, es, c, j, Entry(key, value));
    assert Entries(t)[|a| + j] == es[j];
  }

  /** Overwriting a present key leaves `keys` exactly as it was. */
  lemma SetOverwriteKeepsKeys<V>(t: Table<V>, key: Key, value: V)
    requires |t.buckets| > 0 && Has(t, key)
    ensures Keys(Set(t, key, value).table) == Keys(t)
  {
    var t' := Set(t, key, value).table;
    SetOverwriteEntries(t, key, value);
    var i :| 0 <= i < |Entries(t)| && Entries(t)[i].key == key
      && Entries(t') == Entries(t)[i := Entry(key, value)];
    assert |Keys(t')| == |Keys(t)|;
    forall x | 0 <= x < |Keys(t)| ensures Keys(t')[x] == Keys(t)[x] {
      assert Entries(t')[x].key == Entries(t)[x].key;
    }
  }

  /**
   * Setting a new key appends its entry to the end of its slot, so `entries`
   * gains that one entry and keeps every other entry in order.
   */
  lemma SetAppendEntries<V>(t: Table<V>, key: Key, value: V)
    requires |t.buckets| > 0 && !Has(t, key)
    ensures Set(t, key, value).table.buckets[Slot(t, key)] == Some(Contents(t.buckets[Slot(t, key)]) + [Entry(key, value)])
    ensures exists p :: 0 <= p <= |Entries(t)|
                     && Entries(Set(t, key, value).table) == Entries(t)[..p] + [Entry(key, value)] + Entries(t)[p..]
  {
    var bs, h := t.buckets, Slot(t, key);
    var es := Contents(bs[h]);
    var nb := es + [Entry(key, value)];
    assert Set(t, key, value).table.buckets == bs[h := Some(nb)];
    FlattenUpdate(bs, h, Some(nb));
    FlattenSplit(bs, h);
    var a, c := Flatten(bs[..h]), Flatten(bs[h + 1..]);
    ConcatInsert(a, es, c, Entry(key, value));
    var p := |a| + |es|;
    assert 0 <= p <= |Entries(t)|;
  }

  /**
   * Removing a present key splices its entry out of `entries` and keeps every
   * other entry in order.
   */
  lemma RemoveEntries<V>(t: Table<V>, key: Key)
    requires |t.buckets| > 0 && Has(t, key)
    ensures exists i :: 0 <= i < |Entries(t)| && Entries(t)[i].key == key
                     && Entries(Remove(t, key).table) == Splice(Entries(t), i)
  {
    var bs, h := t.buckets, Slot(t, key);
    var es := Contents(bs[h]);
    HasFinds(t, key);
    var j := Find(es, key).value;
    var rest := Splice(es, j);
    var nb: Bucket<Entry<V>> := if |rest| == 0 then None else Some(rest);
    assert Remove(t, key).table.buckets == bs[h := nb];
    assert Contents(nb) == rest;
    FlattenUpdate(bs, h, nb);
    FlattenSplit(bs, h);
    var a, c := Flatten(bs[..h]), Flatten(bs[h + 1..]);
    ConcatSplice(a, es, c, j);
    assert Entries(t)[|a| + j] == es[j];
  }

  /**
   * The inner loop of `resize` for the entries `es` of old slot `i`: each entry
   * goes to index `hash(key) % newBuckets.length`, where the hash still reads
   * the old capacity. Since every key of the slot hashes to `i`, the entries
   * all land, in order, in new slot `i`.
   */
  method RehashSlot<V>(newBuckets: seq<Bucket<Entry<V>>>, es: seq<Entry<V>>, i: nat, cap: nat)
    returns (nb: seq<Bucket<Entry<V>>>)
    requires cap > 0 && i < cap && |newBuckets| == 2 * cap
    requires newBuckets[i] == None
    requires forall j :: 0 <= j < |es| ==> Hash(es[j].key, cap) == i
    ensures nb == newBuckets[i := if |es| == 0 then None else Some(es)]
  {
    nb := newBuckets;
    var j := 0;
    while j < |es|
      invariant 0 <= j <= |es|
      invariant nb == newBuckets[i := if j == 0 then None else Some(es[..j])]
    {
      var newIndex := Hash(es[j].key, cap) % |nb|;
      RehashIndexUnchanged(es[j].key, cap);
      if nb[newIndex].None? {
        nb := nb[newIndex := Some([])];
      }
      assert es[..j + 1] == es[..j] + [es[j]];
      nb := nb[newIndex := Some(nb[newIndex].value + [es[j]])];
      j := j + 1;
    }
    assert es[..j] == es;
  }

  /**
   * The bucket array `resize` builds: the old array followed by `capacity`
   * absent slots, because rehashing moves nothing. The caller never sees it,
   * since assigning it to the `const` binding throws.
   */
  method Resize<V>(t: Table<V>) returns (newBuckets: seq<Bucket<Entry<V>>>)
    requires Valid(t)
    ensures newBuckets == t.buckets + Absent(|t.buckets|)
  {
    var cap := |t.buckets|;
    newBuckets := Absent(2 * cap);
    var i := 0;
    while i < cap
      invariant 0 <= i <= cap
      invariant |newBuckets| == 2 * cap
      invariant forall x :: 0 <= x < i ==> newBuckets[x] == t.buckets[x]
      invariant forall x :: i <= x < 2 * cap ==> newBuckets[x] == None
    {
      if t.buckets[i].Some? {
        var es := t.buckets[i].value;
        assert forall j :: 0 <= j < |es| ==> Hash(es[j].key, cap) == i by {
          assert forall j :: 0 <= j < |es| ==> Contents(t.buckets[i])[j] == es[j];
        }
        newBuckets := RehashSlot(newBuckets, es, i, cap);
      }
      i := i + 1;
    }
    assert newBuckets == t.buckets + Absent(cap);
  }

  /** The capacity stays 16: in a valid 16-slot table holding 11 bindings, the next new key makes `set` throw. */
  lemma SetThrowsFromTwelfthKey<V>(t: Table<V>, key: Key, value: V)
    requires Valid(t) && |t.buckets| == InitialCapacity
    requires key !in Model(t)
    ensures Set(t, key, value).outcome == ResizeThrew <==> |Model(t)| >= 11
  {
    GetModel(t, key);
    EntriesEnumerateModel(t);
    LoadExceededAtInitialCapacity(t.size + 1);
  }

  /** A call on the map, for replaying a history of calls. */
  datatype Op<V> = SetOp(key: Key, value: V) | RemoveOp(key: Key) | ClearOp

  /** The table after one call, whether or not the call threw from `resize`. */
  function Apply<V>(t: Table<V>, op: Op<V>): (r: Table<V>)
    requires |t.buckets| > 0
    ensures |r.buckets| == |t.buckets|
  {
    match op
    case SetOp(k, v) => Set(t, k, v).table
    case RemoveOp(k) => Remove(t, k).table
    case ClearOp => Clear(t)
  }

  /** The table a history of calls leaves behind, starting from a fresh map; its capacity never changes. */
  function Run<V>(ops: seq<Op<V>>): (t: Table<V>)
    ensures |t.buckets| == InitialCapacity
    decreases |ops|
  {
    if |ops| == 0 then New() else Apply(Run(ops[..|ops| - 1]), ops[|ops| - 1])
  }

  /** The same history on an abstract map. */
  function AbstractRun<V>(ops: seq<Op<V>>): map<Key, V>
    decreases |ops|
  {
    if |ops| == 0 then map[]
    else
      var m := AbstractRun(ops[..|ops| - 1]);
      match ops[|ops| - 1]
      case SetOp(k, v) => m[k := v]
      case RemoveOp(k) => m - {k}
      case ClearOp => map[]
  }

  /** Every reachable table satisfies the invariant and denotes the abstract map of its history. */
  lemma {:induction false} RunRefinesMap<V>(ops: seq<Op<V>>)
    ensures Valid(Run(ops))
    ensures Model(Run(ops)) == AbstractRun(ops)
    decreases |ops|
  {
    if |ops| == 0 {
      NewIsEmpty<V>();
    } else {
      var prefix := ops[..|ops| - 1];
      RunRefinesMap(prefix);
      var t := Run(prefix);
      match ops[|ops| - 1]
      case SetOp(k, v) => SetMaintainsInvariant(t, k, v);
      case RemoveOp(k) => RemoveMaintainsInvariant(t, k);
      case ClearOp => ClearMaintainsInvariant(t);
    }
  }

}
