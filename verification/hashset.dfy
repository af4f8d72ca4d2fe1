/**
 * `HashSet()` of HashMap.js: the same chained table as HashMap, with bare
 * keys as entries. The table is an immutable record; every mutating
 * operation returns the new record.
 */
module HashSet {

  import opened Wrappers
  import opened Hashing
  import opened Buckets

  /** The closure state: the bucket array (whose length is the capacity) and `size`. */
  datatype Table = Table(buckets: seq<Bucket<Key>>, size: int)

  /** The table after `add`, and whether `add` returned or threw from `resize`. */
  datatype AddResult = AddResult(table: Table, outcome: Outcome)

  /** The table after `remove`, and the boolean `remove` returns. */
  datatype RemoveResult = RemoveResult(table: Table, removed: bool)

  /** A fresh set: 16 absent slots and size 0. */
  function New(): (t: Table)
    ensures |t.buckets| == InitialCapacity && Length(t) == 0
    ensures forall k :: !Has(t, k)
  {
    Table(Absent(InitialCapacity), 0)
  }

  /** The slot `hash` selects for `key` at the table's current capacity. */
  function Slot(t: Table, key: Key): (i: nat)
    requires |t.buckets| > 0
    ensures i < |t.buckets|
  {
    Hash(key, |t.buckets|)
  }

  /** `has`: the selected slot is present and includes the key. */
  predicate Has(t: Table, key: Key)
    requires |t.buckets| > 0
  {
    var b := t.buckets[Slot(t, key)];
    b.Some? && key in b.value
  }

  /** `indexOf`: the first position of `key` in a bucket, if any. */
  function IndexOf(s: seq<Key>, key: Key): (r: Option<nat>)
    ensures r.Some? ==> r.value < |s| && s[r.value] == key && key !in s[..r.value]
    ensures r.None? <==> key !in s
    decreases |s|
  {
    if |s| == 0 then None
    else if s[0] == key then Some(0)
    else match IndexOf(s[1..], key)
      case None => None
      case Some(i) =>
        assert s[..i + 1] == [s[0]] + s[1..][..i];
        Some(i + 1)
  }

  /**
   * `add`: a key already present leaves the table untouched; otherwise the key
   * is appended to its slot (created if absent) and `size` grows by one, after
   * which crossing the load factor makes `resize` throw.
   */
  function Add(t: Table, key: Key): (r: AddResult)
    requires |t.buckets| > 0
    ensures |r.table.buckets| == |t.buckets|
    ensures Has(r.table, key)
    ensures forall k :: k != key ==> Has(r.table, k) == Has(t, k)
    ensures Has(t, key) ==> r == AddResult(t, Ok)
    ensures !Has(t, key) ==> r.table.size == t.size + 1
    ensures !Has(t, key) ==> (r.outcome == ResizeThrew <==> LoadExceeded(t.size + 1, |t.buckets|))
  {
    var h := Slot(t, key);
    var b := Contents(t.buckets[h]);
    if key in b then AddResult(t, Ok)
    else
      var t' := Table(t.buckets[h := Some(b + [key])], t.size + 1);
      AddResult(t', if LoadExceeded(t'.size, |t'.buckets|) then ResizeThrew else Ok)
  }

  /**
   * `remove`: splices the first occurrence of the key out of its slot, marks
   * the slot absent when it empties, decrements `size` and reports true; a
   * missing key reports false and changes nothing.
   */
  function Remove(t: Table, key: Key): (r: RemoveResult)
    requires |t.buckets| > 0
    ensures r.removed == Has(t, key)
    ensures |r.table.buckets| == |t.buckets|
    ensures r.removed ==> r.table.size == t.size - 1
    ensures !r.removed ==> r.table == t
    ensures forall k :: k != key ==> Has(r.table, k) == Has(t, k)
  {
    var h := Slot(t, key);
    match t.buckets[h]
    case None => RemoveResult(t, false)
    case Some(b) =>
      match IndexOf(b, key)
      case None => RemoveResult(t, false)
      case Some(i) =>
        var rest := Splice(b, i);
        assert b == b[..i] + [b[i]] + b[i + 1..];
        RemoveResult(Table(t.buckets[h := if |rest| == 0 then None else Some(rest)], t.size - 1), true)
  }

  /** `length`. */
  function Length(t: Table): int
  {
    t.size
  }

  /** `clear`: every slot absent and `size` 0, at the same capacity. */
  function Clear(t: Table): (r: Table)
    ensures |r.buckets| == |t.buckets| && Length(r) == 0
    ensures |t.buckets| > 0 ==> forall k :: !Has(r, k)
  {
    Table(Absent(|t.buckets|), 0)
  }

  /** `keys`: the contents of every present slot, in slot order. */
  function Keys(t: Table): seq<Key>
  {
    Flatten(t.buckets)
  }

  /** Every key in a slot lies where the hash at capacity `cap` puts it, counting slots from `off`. */
  ghost predicate PlacedFrom(bs: seq<Bucket<Key>>, cap: nat, off: nat)
    requires cap > 0
  {
    forall i, j :: 0 <= i < |bs| && 0 <= j < |Contents(bs[i])| ==> Hash(Contents(bs[i])[j], cap) == off + i
  }

  /**
   * The representation invariant: a positive capacity, no present-but-empty
   * slot, every key in the slot its hash selects, no key twice in a slot, and
   * `size` counting every stored key.
   */
  ghost predicate Valid(t: Table)
  {
    var bs := t.buckets;
    && |bs| > 0
    && (forall i :: 0 <= i < |bs| ==> bs[i] != Some([]))
    && PlacedFrom(bs, |bs|, 0)
    && (forall i :: 0 <= i < |bs| ==> Distinct(Contents(bs[i])))
    && t.size == |Flatten(bs)|
  }

  /** The abstract value: the set of stored keys. */
  function Model(t: Table): set<Key>
  {
    Elements(Flatten(t.buckets))
  }

  /** The hashed lookup agrees with the abstract set. */
  lemma HasIffModel(t: Table, key: Key)
    requires Valid(t)
    ensures Has(t, key) <==> key in Model(t)
  {
    var bs := t.buckets;
    FlattenMember(bs, key);
    if key in Model(t) {
      var i :| 0 <= i < |bs| && key in Contents(bs[i]);
      var j :| 0 <= j < |Contents(bs[i])| && Contents(bs[i])[j] == key;
      assert Hash(key, |bs|) == i;
    }
  }

  /** Slot-wise placement and slot-wise distinctness make the whole enumeration distinct. */
  lemma {:induction false} FlattenDistinct(bs: seq<Bucket<Key>>, cap: nat, off: nat)
    requires cap > 0 && PlacedFrom(bs, cap, off)
    requires forall i :: 0 <= i < |bs| ==> Distinct(Contents(bs[i]))
    ensures Distinct(Flatten(bs))
    ensures forall x :: 0 <= x < |Flatten(bs)| ==> off <= Hash(Flatten(bs)[x], cap)
    decreases |bs|
  {
    if |bs| > 0 {
      var head, tail := Contents(bs[0]), bs[1..];
      assert PlacedFrom(tail, cap, off + 1) by {
        forall i, j | 0 <= i < |tail| && 0 <= j < |Contents(tail[i])|
          ensures Hash(Contents(tail[i])[j], cap) == off + 1 + i
        {
          assert tail[i] == bs[i + 1];
        }
      }
      forall i | 0 <= i < |tail| ensures Distinct(Contents(tail[i])) {
        assert tail[i] == bs[i + 1];
      }
      FlattenDistinct(tail, cap, off + 1);
      var rest := Flatten(tail);
      forall x, y | 0 <= x < |head| && 0 <= y < |rest|
        ensures head[x] != rest[y]
      {
        assert Hash(head[x], cap) == off;
      }
      DistinctConcat(head, rest);
      forall x | 0 <= x < |head + rest| ensures off <= Hash((head + rest)[x], cap) {
        if x < |head| {
          assert Hash(head[x], cap) == off;
        } else {
          assert (head + rest)[x] == rest[x - |head|];
        }
      }
    }
  }

  /** A fresh set satisfies the invariant and is empty. */
  lemma NewIsEmpty()
    ensures Valid(New()) && Model(New()) == {}
  {
    FlattenAbsent(New().buckets);
  }

  /** Replacing one slot by a well-placed, repetition-free, non-empty-if-present bucket keeps the invariant. */
  lemma UpdateSlotValid(t: Table, h: nat, nb: Bucket<Key>, size': int)
    requires Valid(t) && h < |t.buckets|
    requires nb != Some([])
    requires forall j :: 0 <= j < |Contents(nb)| ==> Hash(Contents(nb)[j], |t.buckets|) == h
    requires Distinct(Contents(nb))
    requires size' == t.size - |Contents(t.buckets[h])| + |Contents(nb)|
    ensures Valid(Table(t.buckets[h := nb], size'))
  {
    var bs := t.buckets;
    var bs' := bs[h := nb];
    FlattenUpdate(bs, h, nb);
    assert PlacedFrom(bs', |bs|, 0) by {
      forall i, j | 0 <= i < |bs'| && 0 <= j < |Contents(bs'[i])|
        ensures Hash(Contents(bs'[i])[j], |bs|) == i
      {
        if i != h {
          assert bs'[i] == bs[i];
        }
      }
    }
  }

  /** Two valid tables with the same lookups have the same abstract set. */
  lemma ModelFromHas(t: Table, t': Table)
    requires Valid(t) && Valid(t')
    requires forall k :: Has(t, k) == Has(t', k)
    ensures Model(t) == Model(t')
  {
    forall k ensures k in Model(t) <==> k in Model(t') {
      HasIffModel(t, k);
      HasIffModel(t', k);
    }
  }

  /** `add` keeps the invariant, whatever its outcome. */
  lemma AddValid(t: Table, key: Key)
    requires Valid(t)
    ensures Valid(Add(t, key).table)
  {
    var h := Slot(t, key);
    var b := Contents(t.buckets[h]);
    if key !in b {
      var nb := b + [key];
      assert forall j :: 0 <= j < |b| ==> Contents(t.buckets[h])[j] == b[j];
      UpdateSlotValid(t, h, Some(nb), t.size + 1);
    }
  }

  /** `add` keeps the invariant and inserts the key into the abstract set, whatever its outcome. */
  lemma AddMaintainsInvariant(t: Table, key: Key)
    requires Valid(t)
    ensures Valid(Add(t, key).table)
    ensures Model(Add(t, key).table) == Model(t) + {key}
  {
    var t' := Add(t, key).table;
    AddValid(t, key);
    HasIffModel(t, key);
    HasIffModel(t', key);
    forall k ensures k in Model(t') <==> k in Model(t) + {key} {
      HasIffModel(t, k);
      HasIffModel(t', k);
    }
  }

  /** Splicing one key out of a well-placed, repetition-free bucket leaves it so, without that key. */
  lemma SpliceKeepsBucket(b: seq<Key>, i: nat, cap: nat, h: nat)
    requires i < |b| && cap > 0
    requires Distinct(b)
    requires forall j :: 0 <= j < |b| ==> Hash(b[j], cap) == h
    ensures Distinct(Splice(b, i))
    ensures forall j :: 0 <= j < |Splice(b, i)| ==> Hash(Splice(b, i)[j], cap) == h
    ensures b[i] !in Splice(b, i)
  {
  }

  /** `remove` keeps the invariant and leaves the key absent. */
  lemma RemoveValid(t: Table, key: Key)
    requires Valid(t)
    ensures Valid(Remove(t, key).table)
    ensures !Has(Remove(t, key).table, key)
  {
    var bs, h := t.buckets, Slot(t, key);
    if Has(t, key) {
      var b := bs[h].value;
      var i := IndexOf(b, key).value;
      var rest := Splice(b, i);
      var nb: Bucket<Key> := if |rest| == 0 then None else Some(rest);
      assert Remove(t, key).table == Table(bs[h := nb], t.size - 1);
      assert forall j :: 0 <= j < |b| ==> Contents(bs[h])[j] == b[j];
      assert Distinct(Contents(bs[h]));
      SpliceKeepsBucket(b, i, |bs|, h);
      UpdateSlotValid(t, h, nb, t.size - 1);
    }
  }

  /** `remove` keeps the invariant, deletes exactly the key, and reports whether it was there. */
  lemma RemoveMaintainsInvariant(t: Table, key: Key)
    requires Valid(t)
    ensures Valid(Remove(t, key).table)
    ensures Remove(t, key).removed <==> key in Model(t)
    ensures Model(Remove(t, key).table) == Model(t) - {key}
  {
    var t' := Remove(t, key).table;
    RemoveValid(t, key);
    HasIffModel(t, key);
    forall k ensures k in Model(t') <==> k in Model(t) - {key} {
      HasIffModel(t, k);
      HasIffModel(t', k);
    }
  }

  /** `clear` yields a valid empty set of the same capacity, and clearing twice equals clearing once. */
  lemma ClearMaintainsInvariant(t: Table)
    requires |t.buckets| > 0
    ensures Valid(Clear(t)) && Model(Clear(t)) == {} && Keys(Clear(t)) == []
    ensures Clear(Clear(t)) == Clear(t)
  {
    FlattenAbsent(Clear(t).buckets);
  }

  /** `keys` lists every stored key exactly once, and `length` counts them. */
  lemma KeysEnumerateModel(t: Table)
    requires Valid(t)
    ensures Distinct(Keys(t))
    ensures |Keys(t)| == Length(t) == |Model(t)|
    ensures forall k :: k in Keys(t) <==> Has(t, k)
  {
    FlattenDistinct(t.buckets, |t.buckets|, 0);
    DistinctCard(Keys(t));
    forall k ensures k in Keys(t) <==> Has(t, k) {
      HasIffModel(t, k);
    }
  }

  /**
   * Adding a new key appends it to the end of its slot, so `keys` gains that
   * one key and keeps every other key in order. (Adding a present key returns
   * the table unchanged, as `Add` states.)
   */
  lemma AddAppendKeys(t: Table, key: Key)
    requires |t.buckets| > 0 && !Has(t, key)
    ensures Add(t, key).table.buckets[Slot(t, key)] == Some(Contents(t.buckets[Slot(t, key)]) + [key])
    ensures exists p :: 0 <= p <= |Keys(t)|
                     && Keys(Add(t, key).table) == Keys(t)[..p] + [key] + Keys(t)[p..]
  {
    var bs, h := t.buckets, Slot(t, key);
    var b := Contents(bs[h]);
    var nb := b + [key];
    assert Add(t, key).table.buckets == bs[h := Some(nb)];
    FlattenUpdate(bs, h, Some(nb));
    FlattenSplit(bs, h);
    var a, c := Flatten(bs[..h]), Flatten(bs[h + 1..]);
    ConcatInsert(a, b, c, key);
    var p := |a| + |b|;
    assert 0 <= p <= |Keys(t)|;
  }

  /**
   * Removing a present key splices its first occurrence out of `keys` and
   * keeps every other key in order.
   */
  lemma RemoveKeys(t: Table, key: Key)
    requires |t.buckets| > 0 && Has(t, key)
    ensures exists i :: 0 <= i < |Keys(t)| && Keys(t)[i] == key
                     && Keys(Remove(t, key).table) == Splice(Keys(t), i)
  {
    var bs, h := t.buckets, Slot(t, key);
    var b := bs[h].value;
    var j := IndexOf(b, key).value;
    var rest := Splice(b, j);
    var nb: Bucket<Key> := if |rest| == 0 then None else Some(rest);
    assert Remove(t, key).table.buckets == bs[h := nb];
    assert Contents(nb) == rest;
    FlattenUpdate(bs, h, nb);
    FlattenSplit(bs, h);
    var a, c := Flatten(bs[..h]), Flatten(bs[h + 1..]);
    ConcatSplice(a, b, c, j);
    assert Keys(t)[|a| + j] == b[j];
  }

  /**
   * The inner loop of `resize` for the keys `b` of old slot `i`: each key goes
   * to index `hash(key) % newBuckets.length`, where the hash still reads the
   * old capacity. Since every key of the slot hashes to `i`, they all land,
   * in order, in new slot `i`.
   */
  method RehashSlot(newBuckets: seq<Bucket<Key>>, b: seq<Key>, i: nat, cap: nat) returns (nb: seq<Bucket<Key>>)
    requires cap > 0 && i < cap && |newBuckets| == 2 * cap
    requires newBuckets[i] == None
    requires forall j :: 0 <= j < |b| ==> Hash(b[j], cap) == i
    ensures nb == newBuckets[i := if |b| == 0 then None else Some(b)]
  {
    nb := newBuckets;
    var j := 0;
    while j < |b|
      invariant 0 <= j <= |b|
      invariant nb == newBuckets[i := if j == 0 then None else Some(b[..j])]
    {
      var newIndex := Hash(b[j], cap) % |nb|;
      RehashIndexUnchanged(b[j], cap);
      if nb[newIndex].None? {
        nb := nb[newIndex := Some([])];
      }
      assert b[..j + 1] == b[..j] + [b[j]];
      nb := nb[newIndex := Some(nb[newIndex].value + [b[j]])];
      j := j + 1;
    }
    assert b[..j] == b;
  }

  /**
   * The bucket array `resize` builds: the old array followed by `capacity`
   * absent slots, because rehashing moves nothing. The caller never sees it,
   * since assigning it to the `const` binding throws.
   */
  method Resize(t: Table) returns (newBuckets: seq<Bucket<Key>>)
    requires Valid(t)
    ensures newBuckets == t.buckets + Absent(|t.buckets|)
  {
    var cap := |t.buckets|;
    newBuckets := Absent(2 * cap);
    var i := 0;
    while i < cap
      invariant 0 <= i <= cap
      invariant |newBuckets| == 2 * cap
      invariant forall x :: 0 <= x < i ==> newBuckets[x] == t.buckets[x]
      invariant forall x :: i <= x < 2 * cap ==> newBuckets[x] == None
    {
      if t.buckets[i].Some? {
        var b := t.buckets[i].value;
        assert forall j :: 0 <= j < |b| ==> Hash(b[j], cap) == i by {
          assert forall j :: 0 <= j < |b| ==> Contents(t.buckets[i])[j] == b[j];
        }
        newBuckets := RehashSlot(newBuckets, b, i, cap);
      }
      i := i + 1;
    }
    assert newBuckets == t.buckets + Absent(cap);
  }

  /** The capacity stays 16: in a valid 16-slot table holding 11 keys, the next new key makes `add` throw. */
  lemma AddThrowsFromTwelfthKey(t: Table, key: Key)
    requires Valid(t) && |t.buckets| == InitialCapacity
    requires key !in Model(t)
    ensures Add(t, key).outcome == ResizeThrew <==> |Model(t)| >= 11
  {
    HasIffModel(t, key);
    KeysEnumerateModel(t);
    LoadExceededAtInitialCapacity(t.size + 1);
  }

  /** A call on the set, for replaying a history of calls. */
  datatype Op = AddOp(key: Key) | RemoveOp(key: Key) | ClearOp

  /** The table after one call, whether or not the call threw from `resize`. */
  function Apply(t: Table, op: Op): (r: Table)
    requires |t.buckets| > 0
    ensures |r.buckets| == |t.buckets|
  {
    match op
    case AddOp(k) => Add(t, k).table
    case RemoveOp(k) => Remove(t, k).table
    case ClearOp => Clear(t)
  }

  /** The table a history of calls leaves behind, starting from a fresh set; its capacity never changes. */
  function Run(ops: seq<Op>): (t: Table)
    ensures |t.buckets| == InitialCapacity
    decreases |ops|
  {
    if |ops| == 0 then New() else Apply(Run(ops[..|ops| - 1]), ops[|ops| - 1])
  }

  /** The same history on an abstract set. */
  function AbstractRun(ops: seq<Op>): set<Key>
    decreases |ops|
  {
    if |ops| == 0 then {}
    else
      var s := AbstractRun(ops[..|ops| - 1]);
      match ops[|ops| - 1]
      case AddOp(k) => s + {k}
      case RemoveOp(k) => s - {k}
      case ClearOp => {}
  }

  /** Every reachable table satisfies the invariant and denotes the abstract set of its history. */
  lemma {:induction false} RunRefinesSet(ops: seq<Op>)
    ensures Valid(Run(ops))
    ensures Model(Run(ops)) == AbstractRun(ops)
    decreases |ops|
  {
    if |ops| == 0 {
      NewIsEmpty();
    } else {
      var prefix := ops[..|ops| - 1];
      RunRefinesSet(prefix);
      var t := Run(prefix);
      match ops[|ops| - 1]
      case AddOp(k) => AddMaintainsInvariant(t, k);
      case RemoveOp(k) => RemoveMaintainsInvariant(t, k);
      case ClearOp => ClearMaintainsInvariant(t);
    }
  }

}
