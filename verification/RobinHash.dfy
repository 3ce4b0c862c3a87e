/** The Robin Hood hash table `tsl::robin_hash` with its power-of-two growth policy. */
module RobinHash {
  import opened Arith
  import opened Bits
  import opened GrowthPolicy
  import opened HashLoad
  import opened MapSpec
  import opened RobinTable

  /** `truncated_hash_type` has 32 bits. */
  const STAMP_BITS: nat := 32

  /** An insertion that had to probe this far on a table that is not nearly empty asks for growth. */
  const HIGH_NB_PROBES: nat := 128
  const MAX_LOAD: real := 0.95

  datatype InsertResult = Inserted | Present | LengthError

  function Truncate(hash: nat): nat {
    hash % Pow2(STAMP_BITS)
  }

  /** The 32-bit stamp decides the home bucket as well as the full hash does, as long as the
      mask fits it: why a rehash may use stored hashes. */
  lemma StampDecidesHome(n: nat, hash: nat)
    requires n > 0 && IsPow2(n) && n - 1 <= Pow2(STAMP_BITS) - 1
    ensures BucketForHash(MaskFor(n), Truncate(hash)) == BucketForHash(MaskFor(n), hash)
  {
    HomeIsRemainder(n, hash);
    HomeIsRemainder(n, Truncate(hash));
    var k: nat :| n == Pow2(k);
    if k > STAMP_BITS {
      Pow2Monotonic(STAMP_BITS + 1, k);
      assert false;
    }
    var c := Pow2(STAMP_BITS - k);
    assert c * n == Pow2(STAMP_BITS) by { Pow2Add(STAMP_BITS - k, k); }
    ModOfMod(hash, n, c);
  }

  lemma NextByMask(n: nat, i: nat)
    requires i < n && IsPow2(n)
    ensures And(i + 1, MaskFor(n)) == Next(i, n)
  {
    HomeIsRemainder(n, i + 1);
    if i + 1 < n {
      DivUnique(i + 1, 0, n, i + 1);
    } else {
      DivUnique(n, 1, n, 0);
    }
  }

  lemma TakeOutThenPut<K, V>(m: map<K, V>, k: K, v: V, out: K)
    requires k != out
    ensures (m - {out})[k := v] == m[k := v] - {out}
  {
  }

  lemma PutBackButOne<K, V>(m: map<K, V>, k: K, out: K)
    requires k in m && k != out
    ensures (m - {k} - {out})[k := m[k]] == m - {out}
  {
  }

  lemma PutBack<K, V>(m: map<K, V>, k: K)
    requires k in m
    ensures (m - {k})[k := m[k]] == m
  {
  }

  ghost function StampBy<K>(hash: K -> nat, storeHash: bool): K -> nat {
    k => if storeHash then Truncate(hash(k)) else 0
  }

  /** An entry carried for 128 buckets or more has taken a full bucket. */
  ghost predicate FarMoved<K, V>(before: seq<Bucket<K, V>>, after: seq<Bucket<K, V>>) {
    && |after| == |before|
    && exists p {:trigger after[p]} ::
         0 <= p < |before| && before[p].Full? && after[p] != before[p] && after[p].Full? && after[p].dist >= 128
  }

  /** From bucket `i` up to the empty bucket `e` nothing has changed. */
  ghost predicate Ahead<K, V>(before: seq<Bucket<K, V>>, b: seq<Bucket<K, V>>, i: nat, e: nat) {
    && |b| == |before| && i < |b| && e < |b|
    && forall p {:trigger b[p]} :: 0 <= p < |b| && Offset(p, e, |b|) <= Offset(i, e, |b|) ==> b[p] == before[p]
  }

  lemma NothingMoved<K, V>(b: seq<Bucket<K, V>>, i: nat, e: nat)
    requires i < |b| && e < |b|
    ensures Ahead(b, b, i, e) && !FarMoved(b, b)
  {
  }

  lemma FarNext<K, V>(before: seq<Bucket<K, V>>, b: seq<Bucket<K, V>>, i: nat, e: nat, x: Bucket<K, V>,
                      b': seq<Bucket<K, V>>, j: nat)
    requires Ahead(before, b, i, e) && b[i].Full? && x.Full? && j < |b|
    requires Offset(j, e, |b|) < Offset(i, e, |b|) && b' == if b[i].dist < x.dist then b[i := x] else b
    ensures Ahead(before, b', j, e)
    ensures FarMoved(before, b') <==> FarMoved(before, b) || (b[i].dist < x.dist && x.dist >= 128)
  {
    assert b'[i] == if b[i].dist < x.dist then x else b[i];
    if FarMoved(before, b) {
      var p :| 0 <= p < |before| && before[p].Full? && b[p] != before[p] && b[p].Full? && b[p].dist >= 128;
      assert p != i && b'[p] == b[p];
    }
  }

  /** The last entry goes into an empty bucket. */
  lemma FarLast<K, V>(before: seq<Bucket<K, V>>, b: seq<Bucket<K, V>>, i: nat, e: nat, x: Bucket<K, V>)
    requires Ahead(before, b, i, e) && b[i].Empty?
    ensures FarMoved(before, b[i := x]) <==> FarMoved(before, b)
  {
    if FarMoved(before, b) {
      var p :| 0 <= p < |before| && before[p].Full? && b[p] != before[p] && b[p].Full? && b[p].dist >= 128;
      assert b[i := x][p] == b[p];
    }
  }

  class RobinHash<K(==), V> {
    const hash: K -> nat
    /** Whether buckets keep the truncated hash, and whether lookups compare it first. */
    const storeHash: bool
    const useStoredHashOnLookup: bool

    var buckets: array<Bucket<K, V>>
    var mask: nat
    var bucketCount: nat
    var nbElements: nat
    var loadThreshold: nat
    var maxLoad: real
    var growOnNextInsert: bool

    /** The finite map that the table stands for. */
    ghost var contents: map<K, V>

    ghost function Home(n: nat): K -> nat {
      HomeBy(hash, n)
    }

    ghost function Stamp(): K -> nat {
      StampBy(hash, storeHash)
    }

    function StampOf(h: nat): nat {
      if storeHash then Truncate(h) else 0
    }

    /** What matters for growing. */
    ghost function Form(): MapSpec.Shape
      reads this
    {
      MapSpec.Shape(bucketCount, maxLoad, growOnNextInsert)
    }

    lemma GrowthAsForm()
      requires Shape() && nbElements == |contents|
      ensures Form().maxLoad > 0.0
      ensures NeedsGrowth() <==> DueToGrow(|contents|, Form())
      ensures NextBucketCount(mask).None? <==> AtLimit(Form())
    {
      ReachesPortion(nbElements, bucketCount, maxLoad);
    }

    ghost predicate Shape()
      reads this
    {
      && bucketCount == buckets.Length
      && mask == MaskFor(bucketCount)
      && (bucketCount == 0 || IsPow2(bucketCount))
      && bucketCount <= MaxBucketCount()
      && ValidLoad(maxLoad, MAX_LOAD)
      && loadThreshold == Portion(bucketCount, maxLoad)
      && (useStoredHashOnLookup ==> storeHash)
    }

    ghost predicate Valid()
      reads this, buckets
    {
      && Shape()
      && nbElements == |contents|
      && (bucketCount == 0 || nbElements < bucketCount)
      && Table(buckets[..], Home(bucketCount), Stamp(), contents)
    }

    constructor (bucketCount: nat, hash: K -> nat, storeHash: bool, useStoredHashOnLookup: bool, ml: real)
      requires bucketCount <= MaxBucketCount()
      requires useStoredHashOnLookup ==> storeHash
      ensures Valid() && contents == map[] && nbElements == 0 && fresh(buckets)
      ensures this.hash == hash && this.storeHash == storeHash && this.useStoredHashOnLookup == useStoredHashOnLookup
      ensures bucketCount == 0 ==> this.bucketCount == 0
      ensures bucketCount > 0 ==> this.bucketCount >= bucketCount
      ensures bucketCount > 0 && IsPow2(bucketCount) ==> this.bucketCount == bucketCount
      ensures maxLoad == ClampLoad(ml, MAX_LOAD) && !growOnNextInsert
    {
      var n := 0;
      if bucketCount > 0 {
        n := RoundUpToPowerOfTwo(bucketCount);
        assert IsPow2(MaxBucketCount());
      }
      this.hash, this.storeHash, this.useStoredHashOnLookup := hash, storeHash, useStoredHashOnLookup;
      this.buckets := new Bucket<K, V>[n](_ => Empty);
      this.mask, this.bucketCount, this.nbElements := MaskFor(n), n, 0;
      this.maxLoad := ClampLoad(ml, MAX_LOAD);
      this.loadThreshold := Portion(n, ClampLoad(ml, MAX_LOAD));
      this.growOnNextInsert := false;
      this.contents := map[];
    }

    function HomeOf(h: nat): nat
      reads this
    {
      BucketForHash(mask, h)
    }

    lemma HomeInRange(h: nat)
      requires Shape() && bucketCount > 0
      ensures HomeOf(h) < bucketCount
    {
      HomeIsRemainder(bucketCount, h);
    }

    /** `next_bucket`: the mask wraps the index around. */
    method NextBucket(i: nat) returns (r: nat)
      requires Shape() && i < bucketCount
      ensures r == Next(i, bucketCount)
    {
      r := And(i + 1, mask);
      NextByMask(bucketCount, i);
    }

    /** `m_first_or_empty_bucket[i]`: without buckets, a static empty one. */
    function BucketAt(i: nat): Bucket<K, V>
      requires bucketCount == buckets.Length && (i < bucketCount || bucketCount == 0)
      reads this, buckets
    {
      if bucketCount == 0 then Empty else buckets[i]
    }

    /** The probe loop shared by `find_impl` and `insert_impl`, from the home bucket `h`. */
    method ProbeFrom(h: nat, key: K, ghost e: nat) returns (found: bool, i: nat, d: nat)
      requires Shape() && h == Home(bucketCount)(key) && h < bucketCount
      requires Table(buckets[..], Home(bucketCount), Stamp(), contents)
      requires e < bucketCount && buckets[e].Empty?
      ensures i < bucketCount && (found <==> key in contents)
      ensures found ==> At(buckets[..], i, key)
      ensures !found ==> d > Dist(buckets[i]) && StopsAt(buckets[..], h, i, d, e)
    {
      ghost var b := buckets[..];
      i, d := h, 0;
      while d <= Dist(buckets[i])
        invariant StopsAt(b, h, i, d, e)
        invariant forall p :: At(b, p, key) ==> b[p].dist >= d
        decreases bucketCount - d
      {
        if (useStoredHashOnLookup ==> buckets[i].stamp == Truncate(hash(key))) && buckets[i].key == key {
          assert At(b, i, key);
          return true, i, d;
        }
        assert !At(b, i, key);
        i := NextBucket(i);
        d := d + 1;
      }
      EarlyStop(b, Home(bucketCount), key, d);
      return false, i, d;
    }

    method Probe(key: K) returns (found: bool, i: nat, d: nat, ghost e: nat)
      requires Valid()
      ensures found <==> key in contents
      ensures found ==> At(buckets[..], i, key)
      ensures i < bucketCount || bucketCount == 0
      ensures bucketCount == 0 ==> i == 0 && d == 0
      ensures !found ==> d > Dist(BucketAt(i))
      ensures !found && bucketCount > 0 ==> StopsAt(buckets[..], HomeOf(hash(key)), i, d, e)
    {
      i, d, e, found := HomeOf(hash(key)), 0, 0, false;
      if bucketCount == 0 {
        AndMask(hash(key), 0);
      } else {
        HomeInRange(hash(key));
        e := EmptyBucketExists(buckets[..], contents);
        found, i, d := ProbeFrom(i, key, e);
      }
    }

    /** The position of the key, or `None` for `end()`. */
    method Find(key: K) returns (pos: Count)
      requires Valid()
      ensures pos.Count? <==> key in contents
      ensures pos.Count? ==> At(buckets[..], pos.n, key) && buckets[pos.n].value == contents[key]
    {
      var found, i, d, _ := Probe(key);
      pos := if found then Count(i) else None;
    }

    /** The second probe of an insertion, on the grown table, where the key is known to be absent. */
    method ProbeAbsent(h: nat, ghost e: nat) returns (i: nat, d: nat)
      requires Shape() && h < bucketCount && e < bucketCount && buckets[e].Empty?
      ensures i < bucketCount && d > Dist(buckets[i])
      ensures StopsAt(buckets[..], h, i, d, e)
    {
      i, d := h, 0;
      while d <= Dist(buckets[i])
        invariant StopsAt(buckets[..], h, i, d, e)
        decreases bucketCount - d
      {
        i := NextBucket(i);
        d := d + 1;
      }
    }

    /** `swap_with_value_in_bucket` */
    method SwapWithBucket(i: nat, x: Bucket<K, V>, ghost m: map<K, V>, ghost e: nat) returns (y: Bucket<K, V>)
      requires Table(buckets[..], Home(bucketCount), Stamp(), m)
      requires Carried(buckets[..], Home(bucketCount), Stamp(), x, i, e) && x.key !in m
      requires x.dist > Dist(buckets[i]) >= 0
      modifies buckets
      ensures y == old(buckets[i]) && buckets[..] == old(buckets[..])[i := x]
      ensures y.Full? && y.key in m && m[y.key] == y.value
      ensures y.stamp == Stamp()(y.key) && Home(bucketCount)(y.key) < buckets.Length
      ensures y.dist == Offset(Home(bucketCount)(y.key), i, buckets.Length)
      ensures Table(buckets[..], Home(bucketCount), Stamp(), (m - {y.key})[x.key := x.value])
    {
      ghost var b := buckets[..];
      RobinTable.Swap(b, Home(bucketCount), Stamp(), m, i, x);
      FillOrdered(b, i, x);
      y, buckets[i] := buckets[i], x;
      assert buckets[..] == b[i := x];
    }

    /** `set_value_of_empty_bucket` */
    method SetEmptyBucket(i: nat, x: Bucket<K, V>, ghost m: map<K, V>, ghost e: nat)
      requires Table(buckets[..], Home(bucketCount), Stamp(), m)
      requires Carried(buckets[..], Home(bucketCount), Stamp(), x, i, e) && x.key !in m && buckets[i].Empty?
      modifies buckets
      ensures buckets[..] == old(buckets[..])[i := x]
      ensures Table(buckets[..], Home(bucketCount), Stamp(), m[x.key := x.value])
    {
      ghost var b := buckets[..];
      Fill(b, Home(bucketCount), Stamp(), m, i, x);
      FillOrdered(b, i, x);
      buckets[i] := x;
      assert buckets[..] == b[i := x];
    }

    /** A step of the chain: what was carried, or taken out of bucket `i`, moves on by one. */
    method Advance(i: nat, x: Bucket<K, V>, ghost e: nat) returns (j: nat, y: Bucket<K, V>)
      requires Shape() && bucketCount > 0 && i < bucketCount && e < bucketCount && i != e && buckets[e].Empty?
      requires x.Full? && x.stamp == StampOf(hash(x.key)) && Dist(buckets[i]) >= x.dist
      requires Home(bucketCount)(x.key) < bucketCount && x.dist == Offset(Home(bucketCount)(x.key), i, bucketCount)
      requires x.dist + Offset(i, e, bucketCount) < bucketCount
      ensures j == Next(i, bucketCount) && j < bucketCount && y == x.(dist := x.dist + 1)
      ensures Carried(buckets[..], Home(bucketCount), Stamp(), y, j, e)
      ensures Offset(j, e, bucketCount) < Offset(i, e, bucketCount)
    {
      j := NextBucket(i);
      y := x.(dist := x.dist + 1);
    }

    /** The displaced entry has been carried very far although the table is not nearly empty. */
    predicate ProbedFar(x: Bucket<K, V>)
      reads this
    {
      x.Full? && x.dist >= HIGH_NB_PROBES && NotNearlyEmpty()
    }

    predicate NotNearlyEmpty()
      reads this
    {
      nbElements as real >= HIGH_PROBES_MIN_LOAD * bucketCount as real
    }

    /** One round of the displacement loop: the carried entry takes the bucket if it is poorer than
        the one in it, and whichever entry is left over is carried on. `all` is what the table
        holds together with the carried entry. */
    method Displace(i: nat, x: Bucket<K, V>, ghost all: map<K, V>, ghost e: nat) returns (j: nat, y: Bucket<K, V>)
      requires Shape() && bucketCount > 0
      requires Carried(buckets[..], Home(bucketCount), Stamp(), x, i, e) && buckets[i].Full?
      requires x.key in all && all[x.key] == x.value
      requires Table(buckets[..], Home(bucketCount), Stamp(), all - {x.key})
      modifies this`growOnNextInsert, buckets
      ensures Shape() && j < bucketCount
      ensures Carried(buckets[..], Home(bucketCount), Stamp(), y, j, e)
      ensures Offset(j, e, bucketCount) < Offset(i, e, bucketCount)
      ensures y.Full? && y.key in all && all[y.key] == y.value
      ensures Table(buckets[..], Home(bucketCount), Stamp(), all - {y.key})
      ensures old(buckets[i]).dist < x.dist ==> buckets[..] == old(buckets[..])[i := x]
      ensures old(buckets[i]).dist >= x.dist ==> buckets[..] == old(buckets[..])
      ensures growOnNextInsert <==> old(growOnNextInsert ||
        (buckets[i].dist < x.dist && x.dist >= 128 && NotNearlyEmpty()))
    {
      y := x;
      if x.dist > Dist(buckets[i]) {
        if ProbedFar(x) {
          growOnNextInsert := true;
        }
        y := SwapWithBucket(i, x, all - {x.key}, e);
        PutBackButOne(all, x.key, y.key);
      }
      j, y := Advance(i, y, e);
    }

    /** The newcomer takes the bucket of a richer entry, which moves on. */
    method TakeBucket(i: nat, x: Bucket<K, V>, ghost m: map<K, V>, ghost e: nat) returns (j: nat, y: Bucket<K, V>)
      requires Shape() && bucketCount > 0 && Table(buckets[..], Home(bucketCount), Stamp(), m)
      requires Carried(buckets[..], Home(bucketCount), Stamp(), x, i, e) && x.key !in m
      requires x.dist > Dist(buckets[i]) >= 0
      modifies buckets
      ensures j < bucketCount && Carried(buckets[..], Home(bucketCount), Stamp(), y, j, e)
      ensures y.Full? && y.key in m && m[y.key] == y.value
      ensures Table(buckets[..], Home(bucketCount), Stamp(), m[x.key := x.value] - {y.key})
      ensures buckets[..] == old(buckets[..])[i := x] && Offset(j, e, bucketCount) < Offset(i, e, bucketCount)
    {
      hide Table, Portion;
      y := SwapWithBucket(i, x, m, e);
      TakeOutThenPut(m, x.key, x.value, y.key);
      j, y := Advance(i, y, e);
    }

    /** One round of it. When it began the buckets were `b`, and `was` tells whether growth was asked for. */
    method CarryStep(i: nat, x: Bucket<K, V>, ghost all: map<K, V>, ghost e: nat, ghost b: seq<Bucket<K, V>>,
                     ghost was: bool)
        returns (j: nat, y: Bucket<K, V>)
      requires Shape() && bucketCount > 0
      requires Carried(buckets[..], Home(bucketCount), Stamp(), x, i, e) && i < bucketCount && buckets[i].Full?
      requires x.Full? && x.key in all && all[x.key] == x.value && Ahead(b, buckets[..], i, e)
      requires growOnNextInsert <==> was || (NotNearlyEmpty() && FarMoved(b, buckets[..]))
      requires Table(buckets[..], Home(bucketCount), Stamp(), all - {x.key})
      modifies this`growOnNextInsert, buckets
      ensures Shape() && j < bucketCount && Ahead(b, buckets[..], j, e)
      ensures Carried(buckets[..], Home(bucketCount), Stamp(), y, j, e)
      ensures Offset(j, e, bucketCount) < Offset(i, e, bucketCount)
      ensures y.Full? && y.key in all && all[y.key] == y.value
      ensures Table(buckets[..], Home(bucketCount), Stamp(), all - {y.key})
      ensures growOnNextInsert <==> was || (NotNearlyEmpty() && FarMoved(b, buckets[..]))
    {
      hide Table, Portion, Offset, FarMoved, Ahead;
      ghost var b1 := buckets[..];
      j, y := Displace(i, x, all, e);
      FarNext(b, b1, i, e, x, buckets[..], j);
    }

    /** The loop of the displacement, until an empty bucket is reached. `growOnNextInsert` is set by an entry carried
        very far, while the table is not nearly empty. */
    method CarryOn(i0: nat, x0: Bucket<K, V>, ghost all: map<K, V>, ghost e: nat)
      requires Shape() && bucketCount > 0
      requires Carried(buckets[..], Home(bucketCount), Stamp(), x0, i0, e)
      requires x0.key in all && all[x0.key] == x0.value
      requires Table(buckets[..], Home(bucketCount), Stamp(), all - {x0.key})
      modifies this`growOnNextInsert, buckets
      ensures Table(buckets[..], Home(bucketCount), Stamp(), all)
      ensures growOnNextInsert <==>
        old(growOnNextInsert) || (NotNearlyEmpty() && FarMoved(old(buckets[..]), buckets[..]))
    {
      assert i0 < bucketCount && e < bucketCount == buckets.Length && x0.Full?;
      ghost var b := buckets[..];
      NothingMoved(b, i0, e);
      hide Table, Portion, Carried, Offset, RobinHash.ProbedFar, RobinHash.Shape, FarMoved, Ahead;
      var i, x := i0, x0;
      while buckets[i].Full?
        invariant Shape() && 0 <= i < bucketCount == buckets.Length && e < bucketCount
        invariant Carried(buckets[..], Home(bucketCount), Stamp(), x, i, e)
        invariant x.Full? && x.key in all && all[x.key] == x.value
        invariant Table(buckets[..], Home(bucketCount), Stamp(), all - {x.key})
        invariant Ahead(b, buckets[..], i, e)
        invariant growOnNextInsert <==> old(growOnNextInsert) || (NotNearlyEmpty() && FarMoved(b, buckets[..]))
        decreases Offset(i, e, bucketCount)
      {
        i, x := CarryStep(i, x, all, e, b, old(growOnNextInsert));
      }
      FarLast(b, buckets[..], i, e, x);
      SetEmptyBucket(i, x, all - {x.key}, e);
      PutBack(all, x.key);
    }

    /** Displacement: the newcomer takes the bucket of a richer entry, which is carried on to the
        next poorer bucket, until an empty one is reached. `m` is what the table held before. */
    method InsertValue(start: nat, first: Bucket<K, V>, ghost m: map<K, V>, ghost e: nat)
      requires Shape() && bucketCount > 0
      requires Table(buckets[..], Home(bucketCount), Stamp(), m)
      requires Carried(buckets[..], Home(bucketCount), Stamp(), first, start, e)
      requires first.key !in m && first.dist > Dist(buckets[start]) >= 0
      modifies this`growOnNextInsert, buckets
      ensures Table(buckets[..], Home(bucketCount), Stamp(), m[first.key := first.value])
      ensures var far := FarMoved(old(buckets[..])[start := first], buckets[..]);
        growOnNextInsert <==> old(growOnNextInsert) || (far && nbElements as real >= 0.15 * bucketCount as real)
    {
      hide Table, Portion;
      var i, x := TakeBucket(start, first, m, e);
      CarryOn(i, x, m[first.key := first.value], e);
    }

    /** `grow_on_high_load` will rehash before the next insertion. */
    predicate NeedsGrowth()
      reads this
    {
      growOnNextInsert || nbElements >= loadThreshold
    }

    /** Loop of `rehash_impl` on the new table: place one moved entry. Unlike `InsertValue` it starts
        at the home bucket and takes part in the probing from there. */
    method InsertValueOnRehash(h: nat, key: K, value: V, ghost m: map<K, V>)
      requires Shape() && h == Home(bucketCount)(key) && h < bucketCount
      requires Table(buckets[..], Home(bucketCount), Stamp(), m)
      requires key !in m && |m| < bucketCount
      modifies buckets
      ensures Table(buckets[..], Home(bucketCount), Stamp(), m[key := value])
    {
      hide Table, Portion, Offset;
      ghost var all, home, stamp := m[key := value], Home(bucketCount), Stamp();
      ghost var e := TableHasRoom(buckets[..], home, stamp, m);
      var i, x := h, Full(0, StampOf(hash(key)), key, value);
      assert all - {key} == m;
      while true
        invariant Carried(buckets[..], home, stamp, x, i, e)
        invariant x.key in all && all[x.key] == x.value
        invariant Table(buckets[..], home, stamp, all - {x.key})
        decreases Offset(i, e, bucketCount)
      {
        if x.dist > Dist(buckets[i]) {
          if buckets[i].Empty? {
            SetEmptyBucket(i, x, all - {x.key}, e);
            PutBack(all, x.key);
            return;
          }
          var y := SwapWithBucket(i, x, all - {x.key}, e);
          PutBackButOne(all, x.key, y.key);
          x := y;
        }
        i, x := Advance(i, x, e);
      }
    }

    /** The home bucket found from the stored stamp, or from the key hashed again. */
    method HomeOnRehash(b: Bucket<K, V>, useStoredHash: bool) returns (h: nat)
      requires Shape() && bucketCount > 0 && b.Full? && b.stamp == StampOf(hash(b.key))
      requires useStoredHash ==> storeHash && bucketCount - 1 <= Pow2(STAMP_BITS) - 1
      ensures h == Home(bucketCount)(b.key) && h < bucketCount
    {
      HomeIsRemainder(bucketCount, hash(b.key));
      if useStoredHash {
        StampDecidesHome(bucketCount, hash(b.key));
        h := HomeOf(b.stamp);
      } else {
        h := HomeOf(hash(b.key));
      }
    }

    /** Move one entry of the old table, if there is one in the bucket, into this new one. */
    method MoveEntry(b: Bucket<K, V>, useStoredHash: bool, ghost moved: map<K, V>)
      requires Shape() && Table(buckets[..], Home(bucketCount), Stamp(), moved)
      requires b.Full? ==> b.stamp == StampOf(hash(b.key)) && b.key !in moved && |moved| < bucketCount
      requires useStoredHash && bucketCount > 0 ==> storeHash && bucketCount - 1 <= Pow2(STAMP_BITS) - 1
      modifies buckets
      ensures Table(buckets[..], Home(bucketCount), Stamp(), if b.Full? then moved[b.key := b.value] else moved)
    {
      if b.Full? {
        var h := HomeOnRehash(b, useStoredHash);
        InsertValueOnRehash(h, b.key, b.value, moved);
      }
    }

    /** The loop of `rehash_impl`: every entry of the old buckets moves into this new table. */
    method MoveAllFrom(old_: array<Bucket<K, V>>, useStoredHash: bool, ghost home: K -> nat, ghost m: map<K, V>)
      requires Shape() && Table(buckets[..], Home(bucketCount), Stamp(), map[]) && old_ != buckets
      requires Table(old_[..], home, Stamp(), m) && (|m| == 0 || |m| < bucketCount)
      requires useStoredHash && bucketCount > 0 ==> storeHash && bucketCount - 1 <= Pow2(STAMP_BITS) - 1
      modifies buckets
      ensures Table(buckets[..], Home(bucketCount), Stamp(), m)
    {
      ghost var moved, b := map[], old_[..];
      var i := 0;
      while i < old_.Length
        invariant i <= old_.Length && old_[..] == b
        invariant Moved(b, m, moved, i)
        invariant Table(buckets[..], Home(bucketCount), Stamp(), moved)
      {
        MoveNext(b, m, moved, i);
        MoveEntry(old_[i], useStoredHash, moved);
        if old_[i].Full? {
          moved := moved[old_[i].key := old_[i].value];
        }
        i := i + 1;
      }
      MovedAll(b, m, moved);
    }

    /** `rehash_impl`: build a table of at least `count` buckets and swap it in. */
    method RehashImpl(count: nat)
      requires Valid() && count <= MaxBucketCount()
      requires nbElements == 0 || nbElements < count
      modifies this
      ensures Valid() && fresh(buckets)
      ensures contents == old(contents) && nbElements == old(nbElements) && maxLoad == old(maxLoad)
      ensures !growOnNextInsert
      ensures if count == 0 then bucketCount == 0 else bucketCount >= count
      ensures count > 0 && IsPow2(count) ==> bucketCount == count
    {
      var t := new RobinHash<K, V>(count, hash, storeHash, useStoredHashOnLookup, maxLoad);
      var useStoredHash := storeHash && t.bucketCount > 0 && t.bucketCount - 1 <= Pow2(STAMP_BITS) - 1;
      t.MoveAllFrom(buckets, useStoredHash, Home(bucketCount), contents);
      SwapIn(t);
    }

    /** `new_table.swap(*this)`: take over what the rehash has built. */
    method SwapIn(t: RobinHash<K, V>)
      requires t != this && t.Shape()
      requires Table(t.buckets[..], HomeBy(hash, t.bucketCount), StampBy(hash, storeHash), contents)
      requires useStoredHashOnLookup ==> storeHash
      requires nbElements == |contents| && (t.bucketCount == 0 || nbElements < t.bucketCount)
      modifies this
      ensures Valid() && buckets == t.buckets && bucketCount == t.bucketCount
      ensures contents == old(contents) && nbElements == old(nbElements) && maxLoad == t.maxLoad
      ensures growOnNextInsert == t.growOnNextInsert
    {
      buckets, mask, bucketCount := t.buckets, t.mask, t.bucketCount;
      loadThreshold, maxLoad, growOnNextInsert := t.loadThreshold, t.maxLoad, t.growOnNextInsert;
    }

    /** `grow_on_high_load`; `grown` is whether the table was rehashed. */
    method GrowOnHighLoad() returns (grown: bool, refused: bool)
      requires Valid()
      modifies this
      ensures Valid() && contents == old(contents) && nbElements == old(nbElements) && maxLoad == old(maxLoad)
      ensures refused <==> old(NeedsGrowth() && NextBucketCount(mask).None?)
      ensures grown <==> old(NeedsGrowth() && NextBucketCount(mask).Count?)
      ensures !grown ==> unchanged(this)
      ensures grown ==> fresh(buckets) && !growOnNextInsert && bucketCount == 2 * (old(mask) + 1)
      ensures !refused ==> nbElements + 1 < bucketCount
    {
      grown, refused := false, false;
      if NeedsGrowth() {
        var next := NextBucketCount(mask);
        if next.None? {
          return false, true;
        }
        GrownFits();
        RehashImpl(next.n);
        growOnNextInsert := false;
        grown := true;
      } else if bucketCount > 0 {
        PortionBelow(bucketCount, maxLoad, MAX_LOAD);
      }
    }

    lemma GrownFits()
      requires Valid() && NextBucketCount(mask).Count?
      ensures var n := NextBucketCount(mask).n;
        IsPow2(n) && n == 2 * (mask + 1) <= MaxBucketCount() && nbElements + 1 < n
    {
      assert mask + 1 == bucketCount || mask + 1 == Pow2(0);
      Doubling(mask, NextBucketCount(mask).n);
    }

    /** Put an absent key where its probe stopped. */
    method PlaceNew(i: nat, d: nat, key: K, value: V, ghost e: nat)
      requires Valid() && nbElements + 1 < bucketCount && key !in contents
      requires StopsAt(buckets[..], HomeOf(hash(key)), i, d, e) && d > Dist(buckets[i])
      modifies this, buckets
      ensures Valid() && buckets == old(buckets) && maxLoad == old(maxLoad) && bucketCount == old(bucketCount)
      ensures contents == old(contents)[key := value]
      ensures growOnNextInsert && !old(growOnNextInsert) ==> old(NotNearlyEmpty())
    {
      hide Table;
      var x := Full(d, StampOf(hash(key)), key, value);
      if buckets[i].Empty? {
        SetEmptyBucket(i, x, contents, e);
      } else {
        InsertValue(i, x, contents, e);
      }
      nbElements := nbElements + 1;
      contents := contents[key := value];
    }

    method Insert(key: K, value: V) returns (res: InsertResult)
      requires Valid()
      modifies this, buckets
      ensures Valid() && (buckets == old(buckets) || fresh(buckets)) && maxLoad == old(maxLoad)
      ensures res.Present? <==> key in old(contents)
      ensures res.LengthError? <==> key !in old(contents) && old(NeedsGrowth() && NextBucketCount(mask).None?)
      ensures contents == if res.Inserted? then old(contents)[key := value] else old(contents)
      ensures if res.LengthError? then Form() == old(Form())
        else Reshaped(ROBIN_KIND, old(nbElements), old(Form()), key !in old(contents), Form())
    {
      hide DueToGrow, AtLimit, Reaches, NextBucketCount, Portion;
      GrowthAsForm();
      var found, i, d, e := Probe(key);
      if found {
        return Present;
      }
      var grown, refused := GrowOnHighLoad();
      if refused {
        return LengthError;
      }
      if grown {
        HomeInRange(hash(key));
        e := EmptyBucketExists(buckets[..], contents);
        i, d := ProbeAbsent(HomeOf(hash(key)), e);
      }
      PlaceNew(i, d, key, value, e);
      return Inserted;
    }

    /** `insert_or_assign`: `try_emplace`, then overwrite the value of a key found. */
    method InsertOrAssign(key: K, value: V) returns (res: InsertResult)
      requires Valid()
      modifies this, buckets
      ensures Valid() && (buckets == old(buckets) || fresh(buckets)) && maxLoad == old(maxLoad)
      ensures res.LengthError? <==> key !in old(contents) && old(NeedsGrowth() && NextBucketCount(mask).None?)
      ensures res.Present? <==> key in old(contents)
      ensures contents == if res.LengthError? then old(contents) else old(contents)[key := value]
      ensures if res.LengthError? then Form() == old(Form())
        else Reshaped(ROBIN_KIND, old(nbElements), old(Form()), key !in old(contents), Form())
    {
      res := Insert(key, value);
      if res.Present? {
        var pos := Find(key);
        Overwrite(pos.n, value);
      }
    }

    method Overwrite(i: nat, value: V)
      requires Valid() && i < bucketCount && buckets[i].Full?
      modifies this`contents, buckets
      ensures Valid() && contents == old(contents[buckets[i].key := value])
    {
      hide Table, Loose, Portion;
      ghost var b := buckets[..];
      EntryOf(b, Home(bucketCount), Stamp(), contents, i);
      AssignedSize(contents, buckets[i].key, value);
      ReplaceValue(b, Home(bucketCount), Stamp(), contents, i, value);
      buckets[i] := buckets[i].(value := value);
      assert buckets[..] == b[i := b[i].(value := value)];
      contents := contents[buckets[i].key := value];
    }

    /** `bucket_entry::clear` of one bucket. */
    method EmptyBucket(pos: nat)
      requires Table(buckets[..], Home(bucketCount), Stamp(), contents)
      requires buckets.Length >= 2 && pos < buckets.Length && buckets[pos].Full?
      modifies buckets
      ensures buckets[..] == old(buckets[..])[pos := Empty] && OrderedButAfter(buckets[..], pos)
      ensures Loose(buckets[..], Home(bucketCount), Stamp(), contents - {old(buckets[pos]).key})
    {
      ghost var b := buckets[..];
      RobinTable.Clear(b, Home(bucketCount), Stamp(), contents, pos);
      ClearOrdered(b, pos);
      buckets[pos] := Empty;
      assert buckets[..] == b[pos := Empty];
    }

    /** `erase_from_bucket`: empty the bucket, then shift the entries after it back by one until
        one is at home or the next bucket is empty. */
    method EraseFromBucket(pos: nat)
      requires Valid() && pos < bucketCount && buckets[pos].Full?
      modifies this`contents, this`nbElements, buckets
      ensures Valid() && contents == old(contents - {buckets[pos].key})
    {
      hide Table, Loose, OrderedButAfter, Portion;
      ghost var m := contents - {buckets[pos].key};
      ghost var e := TableHasRoom(buckets[..], Home(bucketCount), Stamp(), contents);
      EntryOf(buckets[..], Home(bucketCount), Stamp(), contents, pos);
      EmptyBucket(pos);
      ShiftBackFrom(pos, m, e);
      contents, nbElements := m, nbElements - 1;
    }

    /** Move the entry of bucket `i` one bucket closer to its home, into the hole before it. */
    method MoveIntoHole(hole: nat, i: nat, ghost m: map<K, V>)
      requires hole < buckets.Length && i == Next(hole, buckets.Length) && i != hole && Dist(buckets[i]) > 0
      requires Loose(buckets[..], Home(bucketCount), Stamp(), m) && OrderedButAfter(buckets[..], hole)
      modifies buckets
      ensures buckets[..] == old(buckets[..])[hole := old(buckets[i]).(dist := old(buckets[i]).dist - 1)][i := Empty]
      ensures Loose(buckets[..], Home(bucketCount), Stamp(), m) && OrderedButAfter(buckets[..], i)
    {
      ghost var b := buckets[..];
      ShiftBack(b, Home(bucketCount), Stamp(), m, hole, i);
      ShiftBackOrdered(b, hole, i);
      buckets[hole] := buckets[i].(dist := buckets[i].dist - 1);
      buckets[i] := Empty;
      assert buckets[..] == b[hole := b[i].(dist := b[i].dist - 1)][i := Empty];
    }

    /** The loop of the backward shift, from the hole `pos`. */
    method ShiftBackFrom(pos: nat, ghost m: map<K, V>, ghost e: nat)
      requires Shape() && pos < bucketCount && e < bucketCount && e != pos && buckets[e].Empty?
      requires Loose(buckets[..], Home(bucketCount), Stamp(), m) && OrderedButAfter(buckets[..], pos)
      modifies buckets
      ensures Table(buckets[..], Home(bucketCount), Stamp(), m)
    {
      hide Loose, Portion;
      var previous: nat := pos;
      var i := NextBucket(previous);
      while Dist(buckets[i]) > 0
        invariant previous < bucketCount && i == Next(previous, bucketCount)
        invariant previous != e && buckets[e].Empty?
        invariant Loose(buckets[..], Home(bucketCount), Stamp(), m)
        invariant OrderedButAfter(buckets[..], previous)
        decreases Offset(previous, e, bucketCount)
      {
        MoveIntoHole(previous, i, m);
        previous := i;
        i := NextBucket(i);
      }
      HoleCloses(buckets[..], previous);
    }

    method Erase(key: K) returns (erased: nat)
      requires Valid()
      modifies this`contents, this`nbElements, buckets
      ensures Valid() && contents == old(contents) - {key}
      ensures erased == if key in old(contents) then 1 else 0
    {
      var pos := Find(key);
      if pos.Count? {
        EraseFromBucket(pos.n);
        return 1;
      }
      return 0;
    }

    /** `clear` keeps the buckets and the thresholds. */
    method Clear()
      requires Valid()
      modifies this`contents, this`nbElements, this`growOnNextInsert, buckets
      ensures Valid() && contents == map[] && nbElements == 0 && !growOnNextInsert
    {
      for i := 0 to buckets.Length
        invariant forall j :: 0 <= j < i ==> buckets[j].Empty?
      {
        buckets[i] := Empty;
      }
      nbElements, growOnNextInsert, contents := 0, false, map[];
    }

    /** The setter `max_load_factor(float)`. */
    method SetMaxLoadFactor(ml: real)
      requires Valid()
      modifies this`maxLoad, this`loadThreshold
      ensures Valid() && maxLoad == ClampLoad(ml, MAX_LOAD)
    {
      maxLoad := ClampLoad(ml, MAX_LOAD);
      loadThreshold := Portion(bucketCount, maxLoad);
    }

    /** The public `rehash(count)`; `false` stands for the `length_error` of the constructor. */
    method Rehash(count: nat) returns (ok: bool)
      requires Valid()
      modifies this
      ensures Valid() && (buckets == old(buckets) || fresh(buckets)) && contents == old(contents)
      ensures maxLoad == old(maxLoad)
      ensures if ok then !growOnNextInsert && Fits(nbElements, bucketCount, maxLoad) else Form() == old(Form())
      ensures ok <==> count <= MaxBucketCount() && Fits(old(nbElements), MaxBucketCount(), old(maxLoad))
      ensures ok && count > 0 ==> bucketCount >= count
    {
      var least := Ceil(nbElements, maxLoad);
      var c := if count > least then count else least;
      if c > MaxBucketCount() {
        return false;
      }
      if nbElements > 0 {
        CeilAbove(nbElements, maxLoad, MAX_LOAD);
      }
      RehashImpl(c);
      return true;
    }
  }

  method ServeInsert<K(==), V>(t: RobinHash<K, V>, key: K, value: V) returns (a: Answer<V>)
    requires t.Valid()
    modifies t, t.buckets
    ensures t.Valid() && (t.buckets == old(t.buckets) || fresh(t.buckets))
    ensures MapStep(ROBIN_KIND, old(t.contents), old(t.Form()), InsertOp(key, value), a, t.contents, t.Form())
  {
    hide Reshaped, DueToGrow, AtLimit, Table, RobinHash.NeedsGrowth, NextBucketCount;
    t.GrowthAsForm();
    var r := t.Insert(key, value);
    a := if r.Inserted? then Done else if r.Present? then Already else TooLarge;
  }

  method ServeAssign<K(==), V>(t: RobinHash<K, V>, key: K, value: V) returns (a: Answer<V>)
    requires t.Valid()
    modifies t, t.buckets
    ensures t.Valid() && (t.buckets == old(t.buckets) || fresh(t.buckets))
    ensures MapStep(ROBIN_KIND, old(t.contents), old(t.Form()), AssignOp(key, value), a, t.contents, t.Form())
  {
    hide Reshaped, DueToGrow, AtLimit, Table, RobinHash.NeedsGrowth, NextBucketCount;
    t.GrowthAsForm();
    var r := t.InsertOrAssign(key, value);
    a := if r.Inserted? then Done else if r.Present? then Already else TooLarge;
  }

  method ServeRehash<K(==), V>(t: RobinHash<K, V>, count: nat) returns (a: Answer<V>)
    requires t.Valid()
    modifies t
    ensures t.Valid() && (t.buckets == old(t.buckets) || fresh(t.buckets))
    ensures MapStep(ROBIN_KIND, old(t.contents), old(t.Form()), RehashOp(count), a, t.contents, t.Form())
  {
    hide Table, Ceil;
    var ok := t.Rehash(count);
    a := if ok then Done else TooLarge;
  }

  method Serve<K(==), V>(t: RobinHash<K, V>, op: Op<K, V>) returns (a: Answer<V>)
    requires t.Valid()
    modifies t, t.buckets
    ensures t.Valid() && (t.buckets == old(t.buckets) || fresh(t.buckets))
    ensures MapStep(ROBIN_KIND, old(t.contents), old(t.Form()), op, a, t.contents, t.Form())
  {
    hide Reshaped, DueToGrow, AtLimit, Refused, RehashRefused, Table, Portion, Ceil;
    match op
    case InsertOp(k, v) => a := ServeInsert(t, k, v);
    case AssignOp(k, v) => a := ServeAssign(t, k, v);
    case EraseOp(k) =>
      var n := t.Erase(k);
      a := if n == 1 then Done else Absent;
    case FindOp(k) =>
      var pos := t.Find(k);
      a := if pos.Count? then Value(t.buckets[pos.n].value) else Absent;
    case ClearOp =>
      t.Clear();
      a := Done;
    case RehashOp(count) => a := ServeRehash(t, count);
    case MaxLoadOp(f) =>
      t.SetMaxLoadFactor(f);
      a := Done;
  }

  /** Over any run, from any initial bucket count, the table answers as a finite map does. */
  method Run<K(==), V>(bucketCount: nat, hash: K -> nat, storeHash: bool, useOnLookup: bool, ml: real, ops: seq<Op<K,
               V>>)
      returns (answers: seq<Answer<V>>, ghost ms: seq<map<K, V>>, ghost shapes: seq<Shape>)
    requires bucketCount <= MaxBucketCount() && (useOnLookup ==> storeHash)
    ensures MapRun(ROBIN_KIND, ms, shapes, ops, answers)
    ensures shapes[0].maxLoad == ClampLoad(ml, MAX_LOAD) && shapes[0].buckets >= bucketCount
    ensures bucketCount == 0 ==> shapes[0].buckets == 0
  {
    var t := new RobinHash<K, V>(bucketCount, hash, storeHash, useOnLookup, ml);
    answers, ms, shapes := [], [t.contents], [t.Form()];
    assert MapRun(ROBIN_KIND, ms, shapes, ops[..0], answers);
    hide *;
    for i := 0 to |ops|
      invariant t.Valid() && fresh(t) && fresh(t.buckets)
      invariant MapRun(ROBIN_KIND, ms, shapes, ops[..i], answers) && |ms| == |shapes| == i + 1 && ms[i] == t.contents
      invariant shapes[i] == t.Form()
      invariant shapes[0] == Shape(shapes[0].buckets, ClampLoad(ml, MAX_LOAD), false)
      invariant shapes[0].buckets >= bucketCount
      invariant bucketCount == 0 ==> shapes[0].buckets == 0
    {
      var a := Serve(t, ops[i]);
      ExtendRun(ROBIN_KIND, ms, shapes, ops[..i], answers, ops[i], a, t.contents, t.Form());
      assert ops[..i + 1] == ops[..i] + [ops[i]];
      answers, ms, shapes := answers + [a], ms + [t.contents], shapes + [t.Form()];
    }
    assert ops[..|ops|] == ops;
  }
}
