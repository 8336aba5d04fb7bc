/**
 * The standard-library shim's hash map: open addressing with linear probing
 * over a vector of optional key/value pairs, a multiplicative byte hasher,
 * doubling when half full, and an iterator that scans the buckets in order.
 *
 * The bytes a key feeds to the hasher are given by the map's `keyBytes`
 * function (equal keys give equal bytes); everything from the bytes on is
 * modelled.
 */
module HashMaps {
  import opened Arith
  import opened Optional

  newtype u8 = x: int | 0 <= x < 0x100
  newtype u64 = x: int | 0 <= x < 0x1_0000_0000_0000_0000

  const U64_MODULUS: nat := 0x1_0000_0000_0000_0000

  /** Buckets a fresh map starts with. */
  const INITIAL_BUCKETS: nat := 16

  // ---------------------------------------------------------------------
  // SimpleHasher
  // ---------------------------------------------------------------------

  /** One byte into the hasher: `h * 31 + b`, wrapping at 2^64. */
  function MixByte(h: u64, b: u8): u64
  {
    ((h as int * 31 + b as int) % U64_MODULUS) as u64
  }

  /** The hasher state after writing `bytes` from state `h`, one byte at a time. */
  function Absorb(h: u64, bytes: seq<u8>): u64
    decreases |bytes|
  {
    if |bytes| == 0 then h else MixByte(Absorb(h, bytes[..|bytes| - 1]), bytes[|bytes| - 1])
  }

  /** Writing `a` and then `b` leaves the hasher where writing `a + b` does. */
  lemma {:induction false} AbsorbConcat(h: u64, a: seq<u8>, b: seq<u8>)
    ensures Absorb(h, a + b) == Absorb(Absorb(h, a), b)
    decreases |b|
  {
    if |b| == 0 {
      assert a + b == a;
    } else {
      var b' := b[..|b| - 1];
      assert (a + b)[..|a + b| - 1] == a + b';
      assert (a + b)[|a + b| - 1] == b[|b| - 1];
      AbsorbConcat(h, a, b');
    }
  }

  /** What `simple_hash` returns for a key that writes `bytes`. */
  function HashOf(bytes: seq<u8>): nat
  {
    Absorb(0, bytes) as nat
  }

  class SimpleHasher {
    var state: u64

    constructor (state: u64)
      ensures this.state == state
    {
      this.state := state;
    }

    /** `Hasher::write`: fold every byte into the state, in order. */
    method Write(bytes: seq<u8>)
      modifies this
      ensures state == Absorb(old(state), bytes)
    {
      for i := 0 to |bytes|
        invariant state == Absorb(old(state), bytes[..i])
      {
        assert bytes[..i + 1][..i] == bytes[..i];
        state := MixByte(state, bytes[i]);
      }
      assert bytes[..|bytes|] == bytes;
    }

    /** `Hasher::finish`: the state as it stands. */
    function Finish(): u64
      reads this
    {
      state
    }
  }

  /** `simple_hash`: a hasher from 0, the key's bytes written, the state read out. */
  method SimpleHash(bytes: seq<u8>) returns (h: nat)
    ensures h == HashOf(bytes) && h < U64_MODULUS
  {
    var hasher := new SimpleHasher(0);
    hasher.Write(bytes);
    h := hasher.Finish() as nat;
  }

  // ---------------------------------------------------------------------
  // Buckets: contents, probing, placing, lookup
  // ---------------------------------------------------------------------

  type Bucket<K, V> = Option<(K, V)>

  /** The stored pairs, in bucket order. */
  function Occupied<K, V>(b: seq<Bucket<K, V>>): seq<(K, V)>
    decreases |b|
  {
    if |b| == 0 then []
    else Occupied(b[..|b| - 1]) + (if b[|b| - 1].Some? then [b[|b| - 1].value] else [])
  }

  lemma {:induction false} OccupiedConcat<K, V>(a: seq<Bucket<K, V>>, b: seq<Bucket<K, V>>)
    ensures Occupied(a + b) == Occupied(a) + Occupied(b)
    decreases |b|
  {
    if |b| == 0 {
      assert a + b == a;
    } else {
      var b' := b[..|b| - 1];
      assert (a + b)[..|a + b| - 1] == a + b';
      assert (a + b)[|a + b| - 1] == b[|b| - 1];
      OccupiedConcat(a, b');
    }
  }

  /** Reading the stored pairs from the front: the first bucket, then the rest. */
  lemma OccupiedFront<K, V>(b: seq<Bucket<K, V>>)
    requires |b| > 0
    ensures Occupied(b) == (if b[0].Some? then [b[0].value] else []) + Occupied(b[1..])
  {
    assert b == [b[0]] + b[1..];
    OccupiedConcat([b[0]], b[1..]);
    assert [b[0]][..0] == [];
    assert Occupied([b[0]]) == Occupied([b[0]][..0]) + (if b[0].Some? then [b[0].value] else []);
  }

  /** Filling one empty bucket adds exactly its pair to the contents. */
  lemma OccupiedFill<K, V>(b: seq<Bucket<K, V>>, i: nat, e: (K, V))
    requires i < |b| && b[i].None?
    ensures |Occupied(b[i := Some(e)])| == |Occupied(b)| + 1
    ensures multiset(Occupied(b[i := Some(e)])) == multiset(Occupied(b)) + multiset{e}
  {
    var b' := b[i := Some(e)];
    assert b == b[..i] + [b[i]] + b[i + 1..];
    assert b' == b[..i] + [Some(e)] + b[i + 1..];
    OccupiedConcat(b[..i] + [b[i]], b[i + 1..]);
    OccupiedConcat(b[..i], [b[i]]);
    OccupiedConcat(b[..i] + [Some(e)], b[i + 1..]);
    OccupiedConcat(b[..i], [Some(e)]);
    assert [b[i]][..0] == [] && [Some(e)][..0] == [];
    assert Occupied([b[i]]) == [];
    assert Occupied([Some(e)]) == [e];
  }

  /** Every occupied bucket is one of the stored pairs. */
  lemma OccupiedHas<K, V>(b: seq<Bucket<K, V>>, i: nat)
    requires i < |b| && b[i].Some?
    ensures b[i].value in Occupied(b)
  {
    assert b == b[..i] + [b[i]] + b[i + 1..];
    OccupiedConcat(b[..i] + [b[i]], b[i + 1..]);
    OccupiedConcat(b[..i], [b[i]]);
    assert [b[i]][..0] == [];
  }

  /** The pairs of a prefix of the table, one bucket longer. */
  lemma OccupiedPrefix<K, V>(b: seq<Bucket<K, V>>, i: nat)
    requires i < |b|
    ensures Occupied(b[..i + 1]) == Occupied(b[..i]) + (if b[i].Some? then [b[i].value] else [])
    ensures |Occupied(b[..i + 1])| <= |Occupied(b)|
  {
    assert b[..i + 1][..i] == b[..i];
    assert b[..i + 1] + b[i + 1..] == b;
    OccupiedConcat(b[..i + 1], b[i + 1..]);
  }

  /** A table with no empty bucket stores one pair per bucket. */
  lemma {:induction false} OccupiedFull<K, V>(b: seq<Bucket<K, V>>)
    requires forall i :: 0 <= i < |b| ==> b[i].Some?
    ensures |Occupied(b)| == |b|
    decreases |b|
  {
    if |b| > 0 {
      OccupiedFull(b[..|b| - 1]);
    }
  }

  /** `n` empty buckets, as `vec![None; n]` makes them. */
  function Empty<K, V>(n: nat): (b: seq<Bucket<K, V>>)
    ensures |b| == n && Occupied(b) == []
    ensures forall i :: 0 <= i < n ==> b[i].None?
    decreases n
  {
    if n == 0 then []
    else
      var b := Empty<K, V>(n - 1) + [None];
      assert b[..n - 1] == Empty<K, V>(n - 1);
      b
  }

  /** The bucket `d` steps along the probe that starts at `h`. */
  function Slot(n: nat, h: nat, d: nat): (s: nat)
    requires n > 0
    ensures s < n
  {
    (h + d) % n
  }

  /** Stepping the bucket index with wrap-around is one more step of the probe. */
  lemma SlotNext(n: nat, h: nat, d: nat)
    requires n > 0
    ensures (Slot(n, h, d) + 1) % n == Slot(n, h, d + 1)
  {
    ModSucc(h + d, n);
  }

  /** The first `n` steps of a probe visit distinct buckets. */
  lemma SlotInjective(n: nat, h: nat, d1: nat, d2: nat)
    requires n > 0 && d1 < d2 < n
    ensures Slot(n, h, d1) != Slot(n, h, d2)
  {
    var x, k := h + d1, d2 - d1;
    var q, r := x / n, x % n;
    assert x == n * q + r;
    if r + k < n {
      assert x + k == n * q + (r + k);
      ModOfMultiplePlus(n, q, r + k);
    } else {
      assert x + k == n * (q + 1) + (r + k - n);
      ModOfMultiplePlus(n, q + 1, r + k - n);
    }
  }

  /** How many steps the probe from `h` takes to reach bucket `i`. */
  function Distance(n: nat, h: nat, i: nat): (d: nat)
    requires h < n && i < n
    ensures d < n && Slot(n, h, d) == i
  {
    if i >= h then
      ModOfMultiplePlus(n, 0, i);
      i - h
    else
      ModOfMultiplePlus(n, 1, i);
      i + n - h
  }

  /** The probe from `h` reaches every bucket within `n` steps. */
  lemma DistanceOfSlot(n: nat, h: nat, d: nat)
    requires h < n && d < n
    ensures Distance(n, h, Slot(n, h, d)) == d
  {
    var d' := Distance(n, h, Slot(n, h, d));
    if d' < d {
      SlotInjective(n, h, d', d);
    } else if d < d' {
      SlotInjective(n, h, d, d');
    }
  }

  /**
   * Steps from `d` on along the probe from `h` to the first empty bucket,
   * or `None` when every bucket from step `d` to step `n - 1` is occupied.
   */
  function FreeDistance<K, V>(b: seq<Bucket<K, V>>, h: nat, d: nat): (r: Option<nat>)
    requires |b| > 0
    ensures r.Some? ==> d <= r.value < |b| && b[Slot(|b|, h, r.value)].None?
    ensures r.Some? ==> forall j :: d <= j < r.value ==> b[Slot(|b|, h, j)].Some?
    ensures r.None? ==> forall j :: d <= j < |b| ==> b[Slot(|b|, h, j)].Some?
    decreases |b| - d
  {
    if d >= |b| then None
    else if b[Slot(|b|, h, d)].None? then Some(d)
    else FreeDistance(b, h, d + 1)
  }

  /** When some bucket is empty, the probe from any start finds one. */
  lemma FreeExists<K, V>(b: seq<Bucket<K, V>>, h: nat)
    requires h < |b| && |Occupied(b)| < |b|
    ensures FreeDistance(b, h, 0).Some?
  {
    if FreeDistance(b, h, 0).None? {
      forall i | 0 <= i < |b| ensures b[i].Some? {
        assert b[Slot(|b|, h, Distance(|b|, h, i))].Some?;
      }
      OccupiedFull(b);
    }
  }

  /** `insert`'s probe: the first empty bucket from `h` gets the pair `e`. */
  function Place<K, V>(b: seq<Bucket<K, V>>, h: nat, e: (K, V)): (r: seq<Bucket<K, V>>)
    requires h < |b| && |Occupied(b)| < |b|
    ensures |r| == |b| && |Occupied(r)| == |Occupied(b)| + 1
  {
    FreeExists(b, h);
    var s := Slot(|b|, h, FreeDistance(b, h, 0).value);
    OccupiedFill(b, s, e);
    b[s := Some(e)]
  }

  /** `Place` adds exactly the pair `e` to the stored pairs. */
  lemma PlaceContents<K, V>(b: seq<Bucket<K, V>>, h: nat, e: (K, V))
    requires h < |b| && |Occupied(b)| < |b|
    ensures multiset(Occupied(Place(b, h, e))) == multiset(Occupied(b)) + multiset{e}
  {
    FreeExists(b, h);
    OccupiedFill(b, Slot(|b|, h, FreeDistance(b, h, 0).value), e);
  }

  /**
   * `get` as a reference definition: walk the probe from step `d`; a pair
   * with the key gives its value, an empty bucket gives `None`.
   */
  function LookupFrom<K(==), V>(b: seq<Bucket<K, V>>, h: nat, key: K, d: nat): (r: Option<V>)
    requires |b| > 0
    ensures r.Some? ==> exists i :: 0 <= i < |b| && b[i] == Some((key, r.value))
    ensures (forall i :: 0 <= i < |b| && b[i].Some? ==> b[i].value.0 != key) ==> r.None?
    decreases |b| - d
  {
    if d >= |b| then None
    else
      match b[Slot(|b|, h, d)]
      case None => None
      case Some(e) => if e.0 == key then Some(e.1) else LookupFrom(b, h, key, d + 1)
  }

  /** The bucket a key's probe starts from in a table of `n` buckets. */
  function Home<K>(keyBytes: K -> seq<u8>, key: K, n: nat): (h: nat)
    requires n > 0
    ensures h < n
  {
    HashOf(keyBytes(key)) % n
  }

  /**
   * The pair in bucket `i`, if any, is reached from its home bucket without
   * passing an empty bucket.
   */
  ghost predicate ReachableAt<K, V>(keyBytes: K -> seq<u8>, b: seq<Bucket<K, V>>, i: nat)
    requires i < |b|
  {
    b[i].Some? ==>
    forall d :: 0 <= d < Distance(|b|, Home(keyBytes, b[i].value.0, |b|), i) ==>
      b[Slot(|b|, Home(keyBytes, b[i].value.0, |b|), d)].Some?
  }

  /** The linear-probing invariant: every stored pair is reachable. */
  ghost predicate Reachable<K, V>(keyBytes: K -> seq<u8>, b: seq<Bucket<K, V>>)
  {
    forall i :: 0 <= i < |b| ==> ReachableAt(keyBytes, b, i)
  }

  /** Placing a pair at its home's first empty bucket keeps every pair reachable. */
  lemma PlaceReachable<K, V>(keyBytes: K -> seq<u8>, b: seq<Bucket<K, V>>, e: (K, V))
    requires |b| > 0 && |Occupied(b)| < |b|
    requires Reachable(keyBytes, b)
    ensures Reachable(keyBytes, Place(b, Home(keyBytes, e.0, |b|), e))
  {
    var n, h := |b|, Home(keyBytes, e.0, |b|);
    FreeExists(b, h);
    var f := FreeDistance(b, h, 0).value;
    var s := Slot(n, h, f);
    var b' := Place(b, h, e);
    assert b' == b[s := Some(e)];
    forall i | 0 <= i < n ensures ReachableAt(keyBytes, b', i) {
      if i == s {
        DistanceOfSlot(n, h, f);
        forall d | 0 <= d < Distance(n, h, s) ensures b'[Slot(n, h, d)].Some? {
          assert b[Slot(n, h, d)].Some?;
        }
      } else {
        assert b[i] == b'[i] && ReachableAt(keyBytes, b, i);
      }
    }
  }

  /** A lookup of a key that is absent, right after it is placed, finds it. */
  lemma PlaceThenLookup<K, V>(b: seq<Bucket<K, V>>, h: nat, key: K, value: V)
    requires h < |b| && |Occupied(b)| < |b|
    requires forall i :: 0 <= i < |b| && b[i].Some? ==> b[i].value.0 != key
    ensures LookupFrom(Place(b, h, (key, value)), h, key, 0) == Some(value)
  {
    FreeExists(b, h);
    PlaceThenLookupFrom(b, h, key, value, 0);
  }

  lemma PlaceThenLookupFrom<K, V>(b: seq<Bucket<K, V>>, h: nat, key: K, value: V, d: nat)
    requires h < |b| && |Occupied(b)| < |b| && FreeDistance(b, h, 0).Some?
    requires forall i :: 0 <= i < |b| && b[i].Some? ==> b[i].value.0 != key
    requires d <= FreeDistance(b, h, 0).value
    ensures LookupFrom(Place(b, h, (key, value)), h, key, d) == Some(value)
    decreases FreeDistance(b, h, 0).value - d
  {
    var f := FreeDistance(b, h, 0).value;
    var b' := Place(b, h, (key, value));
    assert b' == b[Slot(|b|, h, f) := Some((key, value))];
    if d < f {
      SlotInjective(|b|, h, d, f);
      assert b'[Slot(|b|, h, d)] == b[Slot(|b|, h, d)];
      PlaceThenLookupFrom(b, h, key, value, d + 1);
    }
  }

  /**
   * In a table where every pair is reachable, a lookup of any stored key
   * succeeds; when keys are unique it returns that key's value.
   */
  lemma LookupFindsStored<K, V>(keyBytes: K -> seq<u8>, b: seq<Bucket<K, V>>, i: nat)
    requires Reachable(keyBytes, b) && i < |b| && b[i].Some?
    ensures var key := b[i].value.0;
            LookupFrom(b, Home(keyBytes, key, |b|), key, 0).Some?
    ensures var key := b[i].value.0;
            (forall j :: 0 <= j < |b| && b[j].Some? && b[j].value.0 == key ==> j == i) ==>
            LookupFrom(b, Home(keyBytes, key, |b|), key, 0) == Some(b[i].value.1)
  {
    var key := b[i].value.0;
    var h := Home(keyBytes, key, |b|);
    LookupFindsStoredFrom(keyBytes, b, i, 0);
  }

  lemma LookupFindsStoredFrom<K, V>(keyBytes: K -> seq<u8>, b: seq<Bucket<K, V>>, i: nat, d: nat)
    requires Reachable(keyBytes, b) && i < |b| && b[i].Some?
    requires d <= Distance(|b|, Home(keyBytes, b[i].value.0, |b|), i)
    ensures LookupFrom(b, Home(keyBytes, b[i].value.0, |b|), b[i].value.0, d).Some?
    decreases Distance(|b|, Home(keyBytes, b[i].value.0, |b|), i) - d
  {
    var h := Home(keyBytes, b[i].value.0, |b|);
    if d < Distance(|b|, h, i) {
      assert ReachableAt(keyBytes, b, i);
      assert b[Slot(|b|, h, d)].Some?;
      LookupFindsStoredFrom(keyBytes, b, i, d + 1);
    }
  }

  /**
   * `resize`'s re-insertion: the pairs of the first `i` buckets of `src`, in
   * bucket order, each placed at its home's first empty bucket in `target`.
   */
  function Regrow<K, V>(keyBytes: K -> seq<u8>, target: seq<Bucket<K, V>>, src: seq<Bucket<K, V>>, i: nat): (r: seq<Bucket<K, V>>)
    requires i <= |src| && |target| > 0 && |Occupied(target)| + |src| <= |target|
    ensures |r| == |target| && |Occupied(r)| <= |Occupied(target)| + i
    decreases i
  {
    if i == 0 then target
    else
      var prev := Regrow(keyBytes, target, src, i - 1);
      if src[i - 1].Some? then Place(prev, Home(keyBytes, src[i - 1].value.0, |prev|), src[i - 1].value)
      else prev
  }

  /** Re-inserting the first `i` buckets stores exactly the pairs they hold. */
  lemma {:induction false} RegrowContents<K, V>(keyBytes: K -> seq<u8>, target: seq<Bucket<K, V>>, src: seq<Bucket<K, V>>, i: nat)
    requires i <= |src| && |target| > 0 && |Occupied(target)| + |src| <= |target|
    ensures multiset(Occupied(Regrow(keyBytes, target, src, i))) == multiset(Occupied(target)) + multiset(Occupied(src[..i]))
    decreases i
  {
    if i > 0 {
      var prev := Regrow(keyBytes, target, src, i - 1);
      var before := Occupied(src[..i - 1]);
      assert multiset(Occupied(prev)) == multiset(Occupied(target)) + multiset(before) by {
        RegrowContents(keyBytes, target, src, i - 1);
      }
      OccupiedPrefix(src, i - 1);
      if src[i - 1].Some? {
        var e := src[i - 1].value;
        var h := Home(keyBytes, e.0, |prev|);
        assert Regrow(keyBytes, target, src, i) == Place(prev, h, e);
        assert Occupied(src[..i]) == before + [e];
        assert multiset(Occupied(Place(prev, h, e))) == multiset(Occupied(prev)) + multiset{e} by {
          PlaceContents(prev, h, e);
        }
        MultisetSnoc(Occupied(Place(prev, h, e)), Occupied(prev), Occupied(target), before, e);
      } else {
        assert Regrow(keyBytes, target, src, i) == prev;
        assert Occupied(src[..i]) == before;
      }
    }
  }

  lemma MultisetSnoc<T>(placed: seq<T>, prev: seq<T>, base: seq<T>, es: seq<T>, e: T)
    requires multiset(prev) == multiset(base) + multiset(es)
    requires multiset(placed) == multiset(prev) + multiset{e}
    ensures multiset(placed) == multiset(base) + multiset(es + [e])
  {
    assert multiset(es + [e]) == multiset(es) + multiset{e};
  }

  /** Re-inserting into a table where every pair is reachable keeps every pair reachable. */
  lemma {:induction false} RegrowReachable<K, V>(keyBytes: K -> seq<u8>, target: seq<Bucket<K, V>>, src: seq<Bucket<K, V>>, i: nat)
    requires i <= |src| && |target| > 0 && |Occupied(target)| + |src| <= |target|
    requires Reachable(keyBytes, target)
    ensures Reachable(keyBytes, Regrow(keyBytes, target, src, i))
    decreases i
  {
    if i > 0 {
      RegrowReachable(keyBytes, target, src, i - 1);
      if src[i - 1].Some? {
        PlaceReachable(keyBytes, Regrow(keyBytes, target, src, i - 1), src[i - 1].value);
      }
    }
  }

  /**
   * Re-inserting a whole table into twice as many empty buckets gives an
   * even table in which every pair is reachable ...
   */
  lemma RegrownReachable<K, V>(keyBytes: K -> seq<u8>, src: seq<Bucket<K, V>>)
    requires |src| > 0
    ensures |Regrow(keyBytes, Empty(|src| * 2), src, |src|)| % 2 == 0
    ensures Reachable(keyBytes, Regrow(keyBytes, Empty(|src| * 2), src, |src|))
  {
    RegrowReachable(keyBytes, Empty(|src| * 2), src, |src|);
    ModOfMultiplePlus(2, |src|, 0);
  }

  /** ... and that holds the pairs of the old table. */
  lemma RegrownContents<K, V>(keyBytes: K -> seq<u8>, src: seq<Bucket<K, V>>)
    requires |src| > 0
    ensures multiset(Occupied(Regrow(keyBytes, Empty(|src| * 2), src, |src|))) == multiset(Occupied(src))
    ensures |Occupied(Regrow(keyBytes, Empty(|src| * 2), src, |src|))| == |Occupied(src)|
  {
    var r := Regrow(keyBytes, Empty(|src| * 2), src, |src|);
    assert src[..|src|] == src;
    RegrowContents(keyBytes, Empty(|src| * 2), src, |src|);
    assert |multiset(Occupied(r))| == |multiset(Occupied(src))|;
  }

  /** Below half of an even number of buckets, one more pair stays within half. */
  lemma HalfRoom(len: nat, n: nat)
    requires len * 2 < n && n % 2 == 0
    ensures (len + 1) * 2 <= n
  {
    ModOfMultiplePlus(2, n / 2, 0);
  }

  /** A key absent from the stored pairs is in no occupied bucket. */
  lemma KeyAbsent<K, V>(b: seq<Bucket<K, V>>, pairs: seq<(K, V)>, key: K)
    requires multiset(Occupied(b)) == multiset(pairs)
    requires forall e :: e in pairs ==> e.0 != key
    ensures forall i :: 0 <= i < |b| && b[i].Some? ==> b[i].value.0 != key
  {
    forall i | 0 <= i < |b| && b[i].Some? ensures b[i].value.0 != key {
      OccupiedHas(b, i);
      assert b[i].value in multiset(pairs);
    }
  }

  // ---------------------------------------------------------------------
  // HashMap and its iterator
  // ---------------------------------------------------------------------

  class HashMap<K(==), V> {
    /** The bytes each key writes into the hasher. */
    const keyBytes: K -> seq<u8>
    var buckets: seq<Bucket<K, V>>
    var len: nat

    /**
     * `len` counts the occupied buckets, at most half of an even, non-zero
     * number of buckets are occupied, and every pair is reachable.
     */
    ghost predicate Valid()
      reads this
    {
      |buckets| > 0 && |buckets| % 2 == 0 &&
      len == |Occupied(buckets)| && len * 2 <= |buckets| &&
      Reachable(keyBytes, buckets)
    }

    /** `HashMap::new`: sixteen empty buckets. */
    constructor (keyBytes: K -> seq<u8>)
      ensures Valid()
      ensures this.keyBytes == keyBytes && buckets == Empty(INITIAL_BUCKETS) && len == 0
    {
      this.keyBytes := keyBytes;
      buckets := Empty(INITIAL_BUCKETS);
      len := 0;
    }

    /** `hash`: the key's home bucket; always an index of `buckets`. */
    function Hash(key: K): (r: nat)
      reads this
      requires |buckets| > 0
      ensures r < |buckets|
    {
      Home(keyBytes, key, |buckets|)
    }

    /** The probing half of `insert`: fill the first empty bucket from the key's home. */
    method ProbeInsert(key: K, value: V)
      requires |buckets| > 0 && len == |Occupied(buckets)| && len < |buckets|
      modifies this
      ensures |buckets| == |old(buckets)|
      ensures buckets == Place(old(buckets), Home(keyBytes, key, |old(buckets)|), (key, value))
      ensures len == old(len) + 1 && len == |Occupied(buckets)|
    {
      var b, n, count := buckets, |buckets|, len;
      var hv := SimpleHash(keyBytes(key));
      var idx := hv % n;
      ghost var h := idx;
      ghost var d := 0;
      ModOfMultiplePlus(n, 0, h);
      FreeExists(b, h);
      ghost var f := FreeDistance(b, h, 0).value;
      assert Home(keyBytes, key, n) == h;
      while b[idx].Some?
        invariant idx == Slot(n, h, d)
        invariant FreeDistance(b, h, d) == Some(f)
        decreases f - d
      {
        SlotNext(n, h, d);
        idx := (idx + 1) % n;
        d := d + 1;
      }
      assert Place(b, h, (key, value)) == b[idx := Some((key, value))];
      buckets, len := b[idx := Some((key, value))], count + 1;
    }

    /** `resize`: twice the buckets, every stored pair re-inserted in bucket order. */
    method Resize()
      requires Valid()
      modifies this
      ensures Valid()
      ensures |buckets| == 2 * |old(buckets)| && len == old(len)
      ensures buckets == Regrow(keyBytes, Empty(2 * |old(buckets)|), old(buckets), |old(buckets)|)
      ensures multiset(Occupied(buckets)) == multiset(Occupied(old(buckets)))
    {
      var n := |buckets|;
      var previous := buckets;
      var target := Empty(n * 2);
      assert |Occupied(previous)| * 2 <= n;
      buckets := target;
      len := 0;
      for i := 0 to |previous|
        invariant |buckets| == 2 * n && len == |Occupied(buckets)|
        invariant len == |Occupied(previous[..i])|
        invariant buckets == Regrow(keyBytes, target, previous, i)
      {
        OccupiedPrefix(previous, i);
        if previous[i].Some? {
          var entry := previous[i].value;
          // The source re-inserts through `insert`, whose growth test does
          // not fire here: fewer than half of the new buckets are in use.
          assert len * 2 < |buckets|;
          ProbeInsert(entry.0, entry.1);
        }
      }
      RegrownReachable(keyBytes, previous);
      RegrownContents(keyBytes, previous);
    }

    /**
     * `insert`: double first if half full, then put the pair in the first
     * empty bucket from the key's home. An equal key already stored is not
     * replaced; the new pair is added beside it.
     */
    method Insert(key: K, value: V)
      requires Valid()
      modifies this
      ensures Valid()
      ensures len == old(len) + 1
      ensures var grown := if old(len) * 2 >= |old(buckets)|
                           then Regrow(keyBytes, Empty(2 * |old(buckets)|), old(buckets), |old(buckets)|)
                           else old(buckets);
              |grown| == |buckets| &&
              buckets == Place(grown, Home(keyBytes, key, |grown|), (key, value))
      ensures multiset(Occupied(buckets)) == multiset(Occupied(old(buckets))) + multiset{(key, value)}
      ensures (forall e :: e in Occupied(old(buckets)) ==> e.0 != key) ==>
              LookupFrom(buckets, Hash(key), key, 0) == Some(value)
    {
      if len * 2 >= |buckets| {
        Resize();
      }
      ghost var grown := buckets;
      assert len * 2 < |grown| && |grown| % 2 == 0;
      HalfRoom(len, |grown|);
      PlaceReachable(keyBytes, grown, (key, value));
      PlaceContents(grown, Home(keyBytes, key, |grown|), (key, value));
      ProbeInsert(key, value);
      assert Reachable(keyBytes, buckets);
      if forall e :: e in Occupied(old(buckets)) ==> e.0 != key {
        KeyAbsent(grown, Occupied(old(buckets)), key);
        PlaceThenLookup(grown, Home(keyBytes, key, |grown|), key, value);
      }
    }

    /** `get`: walk the probe from the key's home until the key or an empty bucket. */
    method Get(key: K) returns (r: Option<V>)
      requires Valid()
      ensures r == LookupFrom(buckets, Hash(key), key, 0)
    {
      var n := |buckets|;
      var hv := SimpleHash(keyBytes(key));
      var idx := hv % n;
      ghost var h := idx;
      ghost var d := 0;
      ModOfMultiplePlus(n, 0, h);
      FreeExists(buckets, h);
      ghost var f := FreeDistance(buckets, h, 0).value;
      while true
        invariant idx == Slot(n, h, d)
        invariant FreeDistance(buckets, h, d) == Some(f)
        invariant LookupFrom(buckets, h, key, d) == LookupFrom(buckets, h, key, 0)
        decreases f - d
      {
        match buckets[idx]
        case None =>
          return None;
        case Some(entry) =>
          if entry.0 == key {
            return Some(entry.1);
          }
          SlotNext(n, h, d);
          idx := (idx + 1) % n;
          d := d + 1;
      }
    }

    /** `iter`: an iterator over the current buckets, from the first. */
    method Iter() returns (it: Iter<K, V>)
      requires Valid()
      ensures fresh(it) && it.buckets == buckets && it.index == 0
      ensures it.Remaining() == Occupied(buckets) && |it.Remaining()| == len
    {
      it := new Iter(buckets);
      assert buckets[0..] == buckets;
    }
  }

  class Iter<K, V> {
    const buckets: seq<Bucket<K, V>>
    var index: nat

    constructor (buckets: seq<Bucket<K, V>>)
      ensures this.buckets == buckets && index == 0
    {
      this.buckets := buckets;
      index := 0;
    }

    /** The pairs still to be yielded, in bucket order. */
    ghost function Remaining(): seq<(K, V)>
      reads this
      requires index <= |buckets|
    {
      Occupied(buckets[index..])
    }

    /** `Iterator::next`: skip empty buckets and yield the next stored pair. */
    method Next() returns (r: Option<(K, V)>)
      requires index <= |buckets|
      modifies this
      ensures index <= |buckets|
      ensures old(Remaining()) == [] ==> r == None && Remaining() == []
      ensures old(Remaining()) != [] ==>
              r == Some(old(Remaining())[0]) && Remaining() == old(Remaining())[1..]
    {
      while index < |buckets|
        invariant index <= |buckets|
        invariant Remaining() == old(Remaining())
      {
        OccupiedFront(buckets[index..]);
        assert buckets[index..][1..] == buckets[index + 1..];
        if buckets[index].Some? {
          var entry := buckets[index].value;
          index := index + 1;
          return Some(entry);
        }
        index := index + 1;
      }
      return None;
    }
  }
}
