/**
 * The pieces HashMap and HashSet share: the key type, the polynomial rolling
 * hash, the load-factor test and the outcome of an insertion.
 */
module Hashing {

  /** A UTF-16 code unit, the value `String.prototype.charCodeAt` returns. */
  type CodeUnit = c: nat | c < 0x1_0000

  /** A JavaScript string key, as its sequence of UTF-16 code units. */
  type Key = seq<CodeUnit>

  /** Both containers start with, and keep, a bucket array of 16 slots. */
  const InitialCapacity: nat := 16

  /** The prime multiplier of the rolling hash. */
  const Multiplier: nat := 31

  /**
   * The rolling hash: starting from 0, each code unit in order updates the
   * accumulator to `(31 * acc + code) % capacity`. Every intermediate value is
   * reduced, so the result is a valid bucket index and the empty key lands in
   * bucket 0.
   */
  function Hash(key: Key, capacity: nat): (h: nat)
    requires capacity > 0
    ensures h < capacity
    ensures |key| == 0 ==> h == 0
    decreases |key|
  {
    if |key| == 0 then 0
    else (Multiplier * Hash(key[..|key| - 1], capacity) + key[|key| - 1]) % capacity
  }

  /** Reference definition: the key read as a base-31 numeral, never reduced. */
  function Polynomial(key: Key): nat
    decreases |key|
  {
    if |key| == 0 then 0
    else Multiplier * Polynomial(key[..|key| - 1]) + key[|key| - 1]
  }

  /** A positive multiple of `m` is at least `m`. */
  lemma MultipleAtLeast(d: nat, m: nat)
    requires d >= 1
    ensures d * m >= m
  {
    var e: nat := d - 1;
    assert d * m == e * m + m;
  }

  /** Euclidean remainder is determined by any quotient/remainder split. */
  lemma ModUnique(x: nat, q: nat, r: nat, m: nat)
    requires m > 0 && r < m && x == q * m + r
    ensures x % m == r
  {
    var q', r' := x / m, x % m;
    assert q' * m + r' == q * m + r;
    if q' < q {
      assert (q - q') * m == r' - r;
      MultipleAtLeast(q - q', m);
    } else if q' > q {
      assert (q' - q) * m == r - r';
      MultipleAtLeast(q' - q, m);
    }
  }

  /** Adding the modulus does not change the remainder. */
  lemma ModAddOne(z: nat, m: nat)
    requires m > 0
    ensures (z + m) % m == z % m
  {
    var q := z / m;
    assert z + m == (q + 1) * m + z % m;
    ModUnique(z + m, q + 1, z % m, m);
  }

  /** Adding any multiple of the modulus does not change the remainder. */
  lemma {:induction false} ModAddMultiple(z: nat, k: nat, m: nat)
    requires m > 0
    ensures (z + k * m) % m == z % m
    decreases k
  {
    if k > 0 {
      ModAddMultiple(z, k - 1, m);
      assert z + k * m == (z + (k - 1) * m) + m;
      ModAddOne(z + (k - 1) * m, m);
    }
  }

  /** Reducing the accumulator before the next step does not change the step's remainder. */
  lemma {:induction false} ModStep(a: nat, c: nat, m: nat)
    requires m > 0
    ensures (Multiplier * (a % m) + c) % m == (Multiplier * a + c) % m
    decreases a
  {
    if a < m {
      ModUnique(a, 0, a, m);
    } else {
      ModStep(a - m, c, m);
      ModAddOne(a - m, m);
      assert Multiplier * a + c == (Multiplier * (a - m) + c) + Multiplier * m;
      ModAddMultiple(Multiplier * (a - m) + c, Multiplier, m);
    }
  }

  /** Reducing at every step gives the same index as reducing the whole polynomial once. */
  lemma {:induction false} HashIsPolynomialMod(key: Key, capacity: nat)
    requires capacity > 0
    ensures Hash(key, capacity) == Polynomial(key) % capacity
    decreases |key|
  {
    if |key| > 0 {
      var prefix := key[..|key| - 1];
      HashIsPolynomialMod(prefix, capacity);
      ModStep(Polynomial(prefix), key[|key| - 1], capacity);
    }
  }

  /**
   * The index `resize` computes: the hash still reads the old capacity, so it is
   * already below the old capacity, and reducing it modulo the doubled length
   * returns it unchanged.
   */
  lemma RehashIndexUnchanged(key: Key, capacity: nat)
    requires capacity > 0
    ensures Hash(key, capacity) % (2 * capacity) == Hash(key, capacity)
  {
    var h := Hash(key, capacity);
    ModUnique(h, 0, h, 2 * capacity);
  }

  /** The loop of `hash`, one code unit per iteration. */
  method ComputeHash(key: Key, capacity: nat) returns (hashCode: nat)
    requires capacity > 0
    ensures hashCode == Hash(key, capacity)
    ensures hashCode == Polynomial(key) % capacity
  {
    hashCode := 0;
    var i := 0;
    while i < |key|
      invariant 0 <= i <= |key|
      invariant hashCode == Hash(key[..i], capacity)
    {
      assert key[..i + 1][..i] == key[..i];
      hashCode := (Multiplier * hashCode + key[i]) % capacity;
      i := i + 1;
    }
    assert key[..|key|] == key;
    HashIsPolynomialMod(key, capacity);
  }

  /**
   * `size / buckets.length > 0.7`, stated exactly over the integers.
   * For a capacity of 16 the quotient n/16 is exact in floating point and no
   * such quotient lies between the double nearest 0.7 and 0.7 itself.
   */
  predicate LoadExceeded(size: int, capacity: nat)
  {
    10 * size > 7 * capacity
  }

  /** At the fixed capacity of 16, the 12th entry is the first to exceed the load factor. */
  lemma LoadExceededAtInitialCapacity(size: int)
    ensures LoadExceeded(size, InitialCapacity) <==> size >= 12
  {
  }

  /**
   * What an insertion reports to its caller. `ResizeThrew` is the TypeError
   * raised when `resize` assigns to the `const` bucket binding; by then the
   * entry has already been stored and the size counted.
   */
  datatype Outcome = Ok | ResizeThrew

}
