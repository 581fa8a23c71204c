/**
 * The key order of a Bolt bucket (`bytes.Compare`, byte-wise
 * lexicographic, a proper prefix first), the bucket cursor's `Last()`,
 * and why the last key of the peer-id bucket carries the largest id.
 */
module KeyOrder {
  import opened Outcomes
  import opened BigEndian

  /** A Bolt bucket: keys and values are byte strings. */
  type Bucket = map<bytes, bytes>

  /** `bytes.Compare(a, b) < 0`; a proper prefix comes before the longer key. */
  predicate Less(a: bytes, b: bytes): (r: bool)
    ensures |a| < |b| && a == b[..|a|] ==> r
    ensures r ==> |b| > 0
    decreases |a|
  {
    if |b| == 0 then false
    else if |a| == 0 then true
    else if a[0] != b[0] then a[0] < b[0]
    else Less(a[1..], b[1..])
  }

  lemma {:induction false} LessIrreflexive(a: bytes)
    ensures !Less(a, a)
    decreases |a|
  {
    if |a| > 0 {
      LessIrreflexive(a[1..]);
    }
  }

  lemma {:induction false} LessTransitive(a: bytes, b: bytes, c: bytes)
    requires Less(a, b) && Less(b, c)
    ensures Less(a, c)
    decreases |a|
  {
    if |a| > 0 && a[0] == b[0] && b[0] == c[0] {
      LessTransitive(a[1..], b[1..], c[1..]);
    }
  }

  /** Keys that agree before position `i` and differ there are ordered by byte `i`. */
  lemma {:induction false} LessAt(a: bytes, b: bytes, i: nat)
    requires i < |a| && i < |b|
    requires forall j :: 0 <= j < i ==> a[j] == b[j]
    requires a[i] < b[i]
    ensures Less(a, b)
    decreases i
  {
    if i > 0 {
      assert a[0] == b[0];
      LessAt(a[1..], b[1..], i - 1);
    }
  }

  /**
   * A smaller big-endian prefix means an earlier key, however long the
   * keys are beyond their first four bytes.
   */
  lemma Uint32Order(a: bytes, b: bytes)
    requires |a| >= 4 && |b| >= 4
    requires Uint32(a) < Uint32(b)
    ensures Less(a, b)
  {
    if a[0] != b[0] {
      LessAt(a, b, 0);
    } else if a[1] != b[1] {
      LessAt(a, b, 1);
    } else if a[2] != b[2] {
      LessAt(a, b, 2);
    } else {
      LessAt(a, b, 3);
    }
  }

  /** Byte order of encoded ids is numeric order of the ids. */
  lemma EncodingPreservesOrder(x: uint32, y: uint32)
    ensures Less(PutUint32(x), PutUint32(y)) <==> x < y
  {
    if x < y {
      Uint32Order(PutUint32(x), PutUint32(y));
    } else if x == y {
      LessIrreflexive(PutUint32(x));
    } else if Less(PutUint32(x), PutUint32(y)) {
      Uint32Order(PutUint32(y), PutUint32(x));
      LessTransitive(PutUint32(x), PutUint32(y), PutUint32(x));
      LessIrreflexive(PutUint32(x));
    }
  }

  /** `k` is the key a cursor's `Last()` lands on: no key of `keys` comes after it. */
  predicate IsLast(k: bytes, keys: set<bytes>)
  {
    k in keys && forall k' :: k' in keys ==> !Less(k, k')
  }

  /** Every non-empty finite set of keys has a last key. */
  lemma {:induction false} LastExists(keys: set<bytes>)
    requires keys != {}
    ensures exists k :: IsLast(k, keys)
    decreases |keys|
  {
    var x :| x in keys;
    var rest := keys - {x};
    if rest == {} {
      LessIrreflexive(x);
      assert keys == {x};
      assert IsLast(x, keys);
    } else {
      LastExists(rest);
      var m :| IsLast(m, rest);
      if Less(m, x) {
        forall k' | k' in keys
          ensures !Less(x, k')
        {
          if k' == x {
            LessIrreflexive(x);
          } else if Less(x, k') {
            LessTransitive(m, x, k');
          }
        }
        assert IsLast(x, keys);
      } else {
        assert IsLast(m, keys);
      }
    }
  }

  /** The cursor's `Last()`: the greatest key in byte order, or no key for an empty bucket. */
  method Last(bucket: Bucket) returns (k: Option<bytes>)
    ensures k.None? <==> bucket == map[]
    ensures k.Some? ==> IsLast(k.value, bucket.Keys)
  {
    if bucket == map[] {
      return None;
    }
    assert bucket.Keys != {} by {
      var x :| x in bucket;
    }
    LastExists(bucket.Keys);
    var last :| IsLast(last, bucket.Keys);
    k := Some(last);
  }

  /** Every key of the id bucket can be passed to `binary.BigEndian.Uint32`. */
  ghost predicate IDKeysReadable(keys: set<bytes>)
  {
    forall k :: k in keys ==> |k| >= 4
  }

  /** The largest id held by the keys of the id bucket, 0 for an empty bucket. */
  ghost function MaxID(keys: set<bytes>): (m: uint32)
    requires IDKeysReadable(keys)
    ensures forall k :: k in keys ==> Uint32(k) <= m
    ensures keys == {} ==> m == 0
    ensures keys != {} ==> exists k :: k in keys && Uint32(k) == m
    decreases |keys|
  {
    if keys == {} then 0
    else
      var k :| k in keys;
      var rest := MaxID(keys - {k});
      if Uint32(k) < rest then rest else Uint32(k)
  }

  /** The id of the last key in byte order is the largest id in the bucket. */
  lemma LastIsMaxID(k: bytes, keys: set<bytes>)
    requires IDKeysReadable(keys)
    requires IsLast(k, keys)
    ensures Uint32(k) == MaxID(keys)
  {
    var m := MaxID(keys);
    var w :| w in keys && Uint32(w) == m;
    if Uint32(k) < m {
      Uint32Order(k, w);
    }
  }
}
