/**
 * The bucket array both containers use: a sequence of slots, each absent
 * (`undefined` or `null` in the JavaScript) or holding a list of entries.
 */
module Buckets {

  import opened Wrappers

  type Bucket<E> = Option<seq<E>>

  /** The entries of one slot; an absent slot contributes none. */
  function Contents<E>(b: Bucket<E>): seq<E>
  {
    match b
    case None => []
    case Some(es) => es
  }

  /** A bucket array of `n` absent slots, as `new Array(n)` or `fill(null)` leaves it. */
  function Absent<E>(n: nat): (bs: seq<Bucket<E>>)
    ensures |bs| == n
    ensures forall i :: 0 <= i < n ==> bs[i] == None
  {
    seq(n, _ => None)
  }

  /** The entries of every slot in slot order, as the `reduce` enumerations build them. */
  function Flatten<E>(bs: seq<Bucket<E>>): seq<E>
    decreases |bs|
  {
    if |bs| == 0 then [] else Contents(bs[0]) + Flatten(bs[1..])
  }

  /** `splice(i, 1)`: the sequence without its element at position `i`. */
  function Splice<E>(s: seq<E>, i: nat): (r: seq<E>)
    requires i < |s|
    ensures |r| == |s| - 1
    ensures forall x :: 0 <= x < |r| ==> r[x] == if x < i then s[x] else s[x + 1]
  {
    s[..i] + s[i + 1..]
  }

  /** No element of `s` occurs twice. */
  predicate Distinct<E(==)>(s: seq<E>)
  {
    forall i, j :: 0 <= i < j < |s| ==> s[i] != s[j]
  }

  /** The set of elements of a sequence. */
  function Elements<E>(s: seq<E>): set<E>
  {
    set x | x in s
  }

  /** An array of absent slots enumerates nothing. */
  lemma {:induction false} FlattenAbsent<E>(bs: seq<Bucket<E>>)
    requires forall i :: 0 <= i < |bs| ==> bs[i] == None
    ensures Flatten(bs) == []
    decreases |bs|
  {
    if |bs| > 0 {
      FlattenAbsent(bs[1..]);
    }
  }

  /** The enumeration splits around any one slot. */
  lemma {:induction false} FlattenSplit<E>(bs: seq<Bucket<E>>, h: nat)
    requires h < |bs|
    ensures Flatten(bs) == Flatten(bs[..h]) + Contents(bs[h]) + Flatten(bs[h + 1..])
    decreases h
  {
    if h > 0 {
      var tail := bs[1..];
      FlattenSplit(tail, h - 1);
      assert tail[..h - 1] == bs[..h][1..];
      assert tail[h..] == bs[h + 1..];
      assert bs[..h][0] == bs[0];
    } else {
      assert bs[..0] == [];
    }
  }

  /** Replacing one slot replaces exactly that slot's contribution to the enumeration. */
  lemma FlattenUpdate<E>(bs: seq<Bucket<E>>, h: nat, b: Bucket<E>)
    requires h < |bs|
    ensures Flatten(bs[h := b]) == Flatten(bs[..h]) + Contents(b) + Flatten(bs[h + 1..])
    ensures |Flatten(bs[h := b])| == |Flatten(bs)| - |Contents(bs[h])| + |Contents(b)|
  {
    var bs' := bs[h := b];
    FlattenSplit(bs', h);
    FlattenSplit(bs, h);
    assert bs'[..h] == bs[..h];
    assert bs'[h + 1..] == bs[h + 1..];
  }

  /** Updating an element of the middle part of `a + m + c` updates the same element of the whole. */
  lemma ConcatUpdate<E>(a: seq<E>, m: seq<E>, c: seq<E>, j: nat, e: E)
    requires j < |m|
    ensures a + m[j := e] + c == (a + m + c)[|a| + j := e]
  {
    var l, r := a + m[j := e] + c, (a + m + c)[|a| + j := e];
    assert |l| == |r|;
    forall x | 0 <= x < |l| ensures l[x] == r[x] {
      if x < |a| {
        assert l[x] == a[x];
      } else if x < |a| + |m| {
        assert l[x] == m[j := e][x - |a|];
      } else {
        assert l[x] == c[x - |a| - |m|];
      }
    }
  }

  /** Appending to the middle part of `a + m + c` inserts into the whole right after that part. */
  lemma ConcatInsert<E>(a: seq<E>, m: seq<E>, c: seq<E>, e: E)
    ensures a + (m + [e]) + c == (a + m + c)[..|a| + |m|] + [e] + (a + m + c)[|a| + |m|..]
  {
    var whole := a + m + c;
    assert whole[..|a| + |m|] == a + m;
    assert whole[|a| + |m|..] == c;
  }

  /** Splicing an element out of the middle part of `a + m + c` splices it out of the whole. */
  lemma ConcatSplice<E>(a: seq<E>, m: seq<E>, c: seq<E>, j: nat)
    requires j < |m|
    ensures a + Splice(m, j) + c == Splice(a + m + c, |a| + j)
  {
    var l, r := a + Splice(m, j) + c, Splice(a + m + c, |a| + j);
    assert |l| == |r|;
    forall x | 0 <= x < |l| ensures l[x] == r[x] {
      if x < |a| {
        assert l[x] == a[x];
      } else if x < |a| + |m| - 1 {
        assert l[x] == Splice(m, j)[x - |a|];
      } else {
        assert l[x] == c[x - |a| - |m| + 1];
      }
    }
  }

  /** An element is enumerated exactly when some slot holds it. */
  lemma {:induction false} FlattenMember<E>(bs: seq<Bucket<E>>, x: E)
    ensures x in Flatten(bs) <==> exists i :: 0 <= i < |bs| && x in Contents(bs[i])
    decreases |bs|
  {
    if |bs| > 0 {
      FlattenMember(bs[1..], x);
      if x in Flatten(bs[1..]) {
        var i :| 0 <= i < |bs[1..]| && x in Contents(bs[1..][i]);
        assert x in Contents(bs[i + 1]);
      }
      if exists i :: 0 <= i < |bs| && x in Contents(bs[i]) {
        var i :| 0 <= i < |bs| && x in Contents(bs[i]);
        if i > 0 {
          assert x in Contents(bs[1..][i - 1]);
        }
      }
    }
  }

  /** Concatenating distinct sequences with no element in common keeps them distinct. */
  lemma DistinctConcat<E>(a: seq<E>, b: seq<E>)
    requires Distinct(a) && Distinct(b)
    requires forall x, y :: 0 <= x < |a| && 0 <= y < |b| ==> a[x] != b[y]
    ensures Distinct(a + b)
  {
    forall i, j | 0 <= i < j < |a + b|
      ensures (a + b)[i] != (a + b)[j]
    {
      if j < |a| {
      } else if i >= |a| {
        assert (a + b)[i] == b[i - |a|] && (a + b)[j] == b[j - |a|];
      } else {
        assert (a + b)[j] == b[j - |a|];
      }
    }
  }

  /** A sequence without repetitions has as many elements as it has positions. */
  lemma {:induction false} DistinctCard<E>(s: seq<E>)
    requires Distinct(s)
    ensures |Elements(s)| == |s|
    decreases |s|
  {
    if |s| > 0 {
      var tail := s[1..];
      DistinctCard(tail);
      assert Elements(s) == Elements(tail) + {s[0]};
      assert forall k :: 0 <= k < |tail| ==> tail[k] == s[k + 1];
      assert s[0] !in Elements(tail);
    }
  }

}
