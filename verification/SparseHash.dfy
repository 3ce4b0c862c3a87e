/** The sparse hash table `tsl::sparse_hash`, with quadratic probing, the power-of-two growth policy
    and tombstones. */
module SparseHash {
  import opened Arith
  import opened Bits
  import opened GrowthPolicy
  import opened HashLoad
  import opened MapSpec
  import opened SparseArray
  import opened SparseTable
  import opened TriangularProbe

  datatype InsertResult = Inserted | Present | LengthError

  const MAX_LOAD: real := 0.8

  lemma InsertedSize<K, V>(m: map<K, V>, k: K, v: V)
    requires k !in m
    ensures |m[k := v]| == |m| + 1
  {
    assert m[k := v].Keys == m.Keys + {k};
  }

  /** The load at which tombstones are cleared: half way from the load factor to full. */
  function WithDeleted(f: real): (g: real)
    ensures g - f == 1.0 - g
  {
    f + 0.5 * (1.0 - f)
  }

  /** `sparse_ibucket` and `index_in_sparse_bucket` split a bucket number. */
  lemma Split(i: nat)
    ensures Shr(i, 6) == i / BITMAP_NB_BITS
    ensures And(i, BITMAP_NB_BITS - 1) == i % BITMAP_NB_BITS
  {
    assert Pow2(6) == 64;
    AndMask(i, 6);
  }

  /** `nb_sparse_buckets` of a bucket count that is a power of two. */
  function SparseCount(n: nat): nat {
    if n == 0 then 0 else if Shr(n, 6) == 0 then 1 else Shr(n, 6)
  }

  lemma SparseCountCovers(n: nat)
    requires n == 0 || IsPow2(n)
    ensures n <= BITMAP_NB_BITS * SparseCount(n)
  {
    if n > 0 {
      Split(n);
      var k: nat :| n == Pow2(k);
      if k >= 6 {
        Pow2Add(k - 6, 6);
        assert Pow2(6) == 64;
        DivUnique(n, Pow2(k - 6), 64, 0);
      } else {
        Pow2Monotonic(k, 6);
      }
    }
  }

  ghost predicate AllValid<E>(arrays: seq<Sparse<E>>) {
    forall a :: 0 <= a < |arrays| ==> arrays[a].Valid()
  }

  /** The buckets of the table, one after the other. */
  ghost function Slots<E>(arrays: seq<Sparse<E>>): (s: seq<Slot<E>>)
    requires AllValid(arrays)
    ensures |s| == BITMAP_NB_BITS * |arrays|
  {
    seq(BITMAP_NB_BITS * |arrays|, i requires 0 <= i < BITMAP_NB_BITS * |arrays| =>
      arrays[i / BITMAP_NB_BITS].SlotOf(i % BITMAP_NB_BITS))
  }

  lemma SlotAt<E>(arrays: seq<Sparse<E>>, i: nat)
    requires AllValid(arrays) && i < BITMAP_NB_BITS * |arrays|
    ensures Shr(i, 6) < |arrays| && And(i, 63) < BITMAP_NB_BITS
    ensures Slots(arrays)[i] == arrays[Shr(i, 6)].SlotOf(And(i, 63))
  {
    Split(i);
  }

  /** A write to one sparse array is a write to one bucket. */
  lemma SlotsUpdate<E>(arrays: seq<Sparse<E>>, i: nat, b: Sparse<E>, x: Slot<E>)
    requires AllValid(arrays) && i < BITMAP_NB_BITS * |arrays| && b.Valid()
    requires forall j :: 0 <= j < BITMAP_NB_BITS ==>
      b.SlotOf(j) == if j == i % BITMAP_NB_BITS then x else arrays[i / BITMAP_NB_BITS].SlotOf(j)
    ensures AllValid(arrays[i / BITMAP_NB_BITS := b])
    ensures Slots(arrays[i / BITMAP_NB_BITS := b]) == Slots(arrays)[i := x]
  {
    var arrays' := arrays[i / BITMAP_NB_BITS := b];
    forall j | 0 <= j < BITMAP_NB_BITS * |arrays|
      ensures Slots(arrays')[j] == Slots(arrays)[i := x][j]
    {
      if j / BITMAP_NB_BITS == i / BITMAP_NB_BITS && j % BITMAP_NB_BITS == i % BITMAP_NB_BITS {
        assert j == i;
      }
    }
  }

  lemma TombAdded<E>(s: seq<Slot<E>>, i: nat)
    requires i < |s| && s[i].Present?
    ensures |Tombs(s[i := Deleted])| == |Tombs(s)| + 1
  {
    assert Tombs(s[i := Deleted]) == Tombs(s) + {i};
  }

  lemma TombRemoved<E>(s: seq<Slot<E>>, i: nat, x: E)
    requires i < |s| && !s[i].Present?
    ensures Tombs(s[i := SparseArray.Present(x)]) == Tombs(s) - {i}
    ensures |Tombs(s[i := SparseArray.Present(x)])| == |Tombs(s)| - if s[i] == Deleted then 1 else 0
  {
    assert Tombs(s[i := SparseArray.Present(x)]) == Tombs(s) - {i};
    assert s[i] == Deleted <==> i in Tombs(s);
  }

  /** A sparse array with another value at an index that has one. */
  function Replace<E>(b: Sparse<E>, j: nat, x: E): Sparse<E>
    requires b.Valid() && j < BITMAP_NB_BITS && b.HasValue(j)
  {
    b.OffsetInRange(j);
    b.(values := b.values[OffsetOf(b.vals, j) := x])
  }

  lemma ReplaceSlots<E>(b: Sparse<E>, j: nat, x: E)
    requires b.Valid() && j < BITMAP_NB_BITS && b.HasValue(j)
    ensures Replace(b, j, x).Valid()
    ensures forall i :: 0 <= i < BITMAP_NB_BITS ==>
      Replace(b, j, x).SlotOf(i) == if i == j then SparseArray.Present(x) else b.SlotOf(i)
  {
    b.OffsetInRange(j);
    forall i | 0 <= i < BITMAP_NB_BITS && b.HasValue(i)
      ensures Replace(b, j, x).SlotOf(i) == if i == j then SparseArray.Present(x) else b.SlotOf(i)
    {
      b.OffsetInRange(i);
      OffsetOrder(b.vals, i, j);
      OffsetOrder(b.vals, j, i);
    }
  }

  class SparseHash<K(==), V> {
    const hash: K -> nat

    var arrays: array<Sparse<Entry<K, V>>>
    var mask: nat
    var bucketCount: nat
    var nbElements: nat
    var nbDeleted: nat
    var rehashThreshold: nat
    var clearThreshold: nat
    var maxLoad: real

    /** The finite map that the table stands for. */
    ghost var contents: map<K, V>

    ghost function Home(): K -> nat
      reads this
    {
      HomeBy(hash, bucketCount)
    }

    /** What matters for growing. */
    ghost function Form(): MapSpec.Shape
      reads this
    {
      MapSpec.Shape(bucketCount, maxLoad, false)
    }

    lemma GrowthAsForm()
      requires Shape() && nbElements == |contents|
      ensures Form().maxLoad > 0.0
      ensures NeedsGrowth() <==> DueToGrow(|contents|, Form())
      ensures NextBucketCount(mask).None? <==> AtLimit(Form())
    {
      ReachesPortion(nbElements, bucketCount, maxLoad);
    }

    ghost predicate Shape()
      reads this
    {
      && (bucketCount == 0 || IsPow2(bucketCount)) && bucketCount <= MaxBucketCount()
      && mask == MaskFor(bucketCount)
      && arrays.Length == SparseCount(bucketCount)
      && ValidLoad(maxLoad, MAX_LOAD)
      && rehashThreshold == Portion(bucketCount, maxLoad)
      && clearThreshold == Portion(bucketCount, WithDeleted(maxLoad))
    }

    ghost predicate Valid()
      reads this, arrays
    {
      && Shape() && AllValid(arrays[..])
      && Table(Slots(arrays[..]), bucketCount, Home(), contents)
      && nbElements == |contents| && (if bucketCount == 0 then nbElements == 0 else nbElements < bucketCount)
      && nbDeleted == |Tombs(Slots(arrays[..]))|
    }

    lemma Covered()
      requires Shape()
      ensures bucketCount <= BITMAP_NB_BITS * arrays.Length
    {
      SparseCountCovers(bucketCount);
    }

    constructor (bucketCount: nat, hash: K -> nat, ml: real)
      requires bucketCount <= MaxBucketCount()
      ensures Valid() && contents == map[] && nbElements == 0 && nbDeleted == 0 && fresh(arrays)
      ensures this.hash == hash && maxLoad == ClampLoad(ml, MAX_LOAD)
      ensures if bucketCount == 0 then this.bucketCount == 0 else this.bucketCount >= bucketCount
      ensures bucketCount > 0 && IsPow2(bucketCount) ==> this.bucketCount == bucketCount
    {
      var n := 0;
      if bucketCount > 0 {
        n := RoundUpToPowerOfTwo(bucketCount);
        assert IsPow2(MaxBucketCount());
      }
      this.hash := hash;
      this.arrays := new Sparse<Entry<K, V>>[SparseCount(n)](_ => Sparse([], 0, 0));
      this.mask, this.bucketCount, this.nbElements, this.nbDeleted := MaskFor(n), n, 0, 0;
      this.maxLoad := ClampLoad(ml, MAX_LOAD);
      this.rehashThreshold := Portion(n, ClampLoad(ml, MAX_LOAD));
      this.clearThreshold := Portion(n, WithDeleted(ClampLoad(ml, MAX_LOAD)));
      this.contents := map[];
      new;
      NoSlots(arrays[..]);
    }

    static lemma NoSlots(a: seq<Sparse<Entry<K, V>>>)
      requires forall i :: 0 <= i < |a| ==> a[i] == Sparse([], 0, 0)
      ensures AllValid(a) && (forall i :: 0 <= i < |Slots(a)| ==> Slots(a)[i] == Empty) && Tombs(Slots(a)) == {}
    {
      assert forall i: nat :: !Bit(0, i);
    }

    /** `bucket_for_hash` is where the probe sequence starts. */
    lemma HomeIsProbeZero(key: K)
      requires Shape() && bucketCount > 0
      ensures BucketForHash(mask, hash(key)) == ProbeAt(Home()(key), 0, bucketCount)
      ensures Home()(key) < bucketCount
    {
      HomeIsRemainder(bucketCount, hash(key));
      DivUnique(Home()(key), 0, bucketCount, Home()(key));
    }

    /** `next_bucket` follows the probe sequence. */
    method NextBucket(i: nat, probe: nat, ghost h: nat) returns (r: nat)
      requires Shape() && bucketCount > 0 && probe > 0 && i == ProbeAt(h, probe - 1, bucketCount)
      ensures r == ProbeAt(h, probe, bucketCount)
    {
      r := And(i + probe, mask);
      HomeIsRemainder(bucketCount, i + probe);
      NextProbe(h, probe - 1, bucketCount);
    }

    /** The three tests of the probe loops on one bucket. */
    method Inspect(i: nat, key: K) returns (hasValue: bool, hasDeleted: bool, sameKey: bool)
      requires AllValid(arrays[..]) && i < BITMAP_NB_BITS * arrays.Length
      ensures hasValue <==> Slots(arrays[..])[i].Present?
      ensures !hasValue ==> (hasDeleted <==> Slots(arrays[..])[i] == Deleted)
      ensures sameKey <==> At(Slots(arrays[..]), i, key)
    {
      SlotAt(arrays[..], i);
      var a, j := arrays[Shr(i, 6)], And(i, 63);
      hasValue, hasDeleted := a.HasValue(j), a.HasDeleted(j);
      sameKey := hasValue && a.Value(j).key == key;
    }

    /** The probe loop of `find_impl` and `erase_impl`. */
    method Lookup(key: K) returns (pos: Count)
      requires Valid()
      ensures pos.Count? <==> key in contents
      ensures pos.Count? ==> At(Slots(arrays[..]), pos.n, key)
    {
      if bucketCount == 0 {
        return None;
      }
      ghost var e := WalkCanStart(key, contents);
      LocatedIff(Slots(arrays[..]), contents, key);
      pos := LookupFrom(BucketForHash(mask, hash(key)), key, e);
    }

    /** The loop of the walk; `e` is a bucket without a value. */
    method LookupFrom(home: nat, key: K, ghost e: nat) returns (pos: Count)
      requires Shape() && bucketCount > 0 && AllValid(arrays[..])
      requires AllReached(Slots(arrays[..]), bucketCount, Home())
      requires home == ProbeAt(Home()(key), 0, bucketCount)
      requires Walking(Slots(arrays[..]), bucketCount, Home()(key), key, 0, e)
      ensures pos.Count? <==> Located(Slots(arrays[..]), key)
      ensures pos.Count? ==> At(Slots(arrays[..]), pos.n, key)
    {
      hide Slots, AllValid, AllReached, LastVisit, Path, ProbeAt, Portion;
      ghost var s, h := Slots(arrays[..]), Home()(key);
      var i, probe := home, 0;
      while true
        invariant i == ProbeAt(h, probe, bucketCount)
        invariant Walking(s, bucketCount, h, key, probe, e)
        decreases 2 * bucketCount - probe
      {
        var hasValue, hasDeleted, sameKey := Inspect(i, key);
        if hasValue {
          if sameKey {
            return Count(i);
          }
        } else if !hasDeleted || probe >= bucketCount {
          LookupFails(s, bucketCount, Home(), key, probe);
          return None;
        }
        WalkGoesOn(s, bucketCount, h, key, probe, e);
        probe := probe + 1;
        i := NextBucket(i, probe, h);
      }
    }

    /** The position of the key, or `None` for `end()`. */
    method Find(key: K) returns (pos: Count)
      requires Valid()
      ensures pos.Count? <==> key in contents
      ensures pos.Count? ==>
        pos.n < |Slots(arrays[..])| && Slots(arrays[..])[pos.n] == SparseArray.Present(Entry(key, contents[key]))
    {
      pos := Lookup(key);
    }

    /** What the table stores at a position. */
    method ValueAt(i: nat) returns (x: Entry<K, V>)
      requires Valid() && i < |Slots(arrays[..])| && Slots(arrays[..])[i].Present?
      ensures SparseArray.Present(x) == Slots(arrays[..])[i]
    {
      SlotAt(arrays[..], i);
      x := arrays[Shr(i, 6)].Value(And(i, 63));
    }

    /** `erase_impl` leaves a tombstone. */
    method Erase(key: K) returns (erased: nat)
      requires Valid()
      modifies this`contents, this`nbElements, this`nbDeleted, arrays
      ensures Valid() && contents == old(contents) - {key}
      ensures erased == if key in old(contents) then 1 else 0
      ensures nbDeleted == old(nbDeleted) + erased
    {
      var pos := Lookup(key);
      if pos.None? {
        return 0;
      }
      Bury(pos.n);
      return 1;
    }

    /** `sparse_array::erase` of one bucket of the table. */
    method EraseBucket(i: nat)
      requires AllValid(arrays[..]) && Table(Slots(arrays[..]), bucketCount, Home(), contents)
      requires i < |Slots(arrays[..])| && Slots(arrays[..])[i].Present?
      modifies arrays
      ensures AllValid(arrays[..])
      ensures Table(Slots(arrays[..]), bucketCount, Home(), contents - {old(Slots(arrays[..])[i].value.key)})
      ensures |Tombs(Slots(arrays[..]))| == old(|Tombs(Slots(arrays[..]))|) + 1
    {
      ghost var s, b := Slots(arrays[..]), arrays[..];
      SlotAt(b, i);
      Split(i);
      var a, j := Shr(i, 6), And(i, 63);
      EraseSlots(arrays[a], j);
      SlotsUpdate(b, i, arrays[a].Erase(j), Deleted);
      BuryTable(s, bucketCount, Home(), contents, i);
      TombAdded(s, i);
      arrays[a] := arrays[a].Erase(j);
      assert arrays[..] == b[a := b[a].Erase(j)];
    }

    method Bury(i: nat)
      requires Valid() && i < |Slots(arrays[..])| && Slots(arrays[..])[i].Present?
      modifies this`contents, this`nbElements, this`nbDeleted, arrays
      ensures Valid() && contents == old(contents - {Slots(arrays[..])[i].value.key})
      ensures nbDeleted == old(nbDeleted) + 1
    {
      hide Reached, Tombs, AllValid;
      ghost var k := Slots(arrays[..])[i].value.key;
      EraseBucket(i);
      contents := contents - {k};
      nbElements, nbDeleted := nbElements - 1, nbDeleted + 1;
    }

    /** `insert_in_bucket`: write the value of an absent key into a bucket without a value. */
    method InsertInBucket(i: nat, x: Entry<K, V>, ghost m: map<K, V>)
      requires Shape() && AllValid(arrays[..]) && Table(Slots(arrays[..]), bucketCount, Home(), m)
      requires i < |Slots(arrays[..])| && !Slots(arrays[..])[i].Present? && x.key !in m
      requires Reached(Slots(arrays[..]), bucketCount, Home()(x.key), i)
      modifies arrays
      ensures AllValid(arrays[..]) && Table(Slots(arrays[..]), bucketCount, Home(), m[x.key := x.value])
      ensures Tombs(Slots(arrays[..])) == old(Tombs(Slots(arrays[..])) - {i})
      ensures |Tombs(Slots(arrays[..]))| ==
        old(|Tombs(Slots(arrays[..]))| - if Slots(arrays[..])[i] == Deleted then 1 else 0)
    {
      ghost var s, b := Slots(arrays[..]), arrays[..];
      SlotAt(b, i);
      Split(i);
      var a, j := Shr(i, 6), And(i, 63);
      SetSlots(arrays[a], j, x);
      SlotsUpdate(b, i, arrays[a].Set(j, x), SparseArray.Present(x));
      PutTable(s, bucketCount, Home(), m, i, x);
      TombRemoved(s, i, x);
      arrays[a] := arrays[a].Set(j, x);
      assert arrays[..] == b[a := b[a].Set(j, x)];
    }

    /** What the probe loop of an insertion has seen: before the first tombstone, only values. */
    ghost predicate SeenSoFar(s: seq<Slot<Entry<K, V>>>, h: nat, probe: nat, first: Count)
      reads this
    {
      match first
      case None =>
        0 < bucketCount <= |s| && forall q :: 0 <= q < probe ==> s[ProbeAt(h, q, bucketCount)].Present?
      case Count(fd) =>
        fd < |s| && s[fd] == Deleted && Reached(s, bucketCount, h, fd)
    }

    /** Without a tombstone on the way, the walk ends in its first round, at a bucket never used. */
    lemma NoTombstoneMet(s: seq<Slot<Entry<K, V>>>, h: nat, key: K, probe: nat, e: nat)
      requires 0 < bucketCount && IsPow2(bucketCount) && Walking(s, bucketCount, h, key, probe, e)
      requires SeenSoFar(s, h, probe, None)
      requires !s[ProbeAt(h, probe, bucketCount)].Present?
      requires s[ProbeAt(h, probe, bucketCount)] == Deleted ==> probe >= bucketCount
      ensures s[ProbeAt(h, probe, bucketCount)] == Empty && Reached(s, bucketCount, h, ProbeAt(h, probe, bucketCount))
    {
      var r := EveryBucketVisited(h, bucketCount, e);
      assert probe <= r;
      assert OnPath(s, bucketCount, h, probe, ProbeAt(h, probe, bucketCount));
    }

    /** The probe loop of `insert_impl`: the key, or else the bucket to put it into, which is the
        first tombstone met if there is one. */
    method ProbeForInsert(home: nat, key: K, ghost e: nat) returns (present: bool, i: nat, reuses: bool)
      requires Shape() && bucketCount > 0 && AllValid(arrays[..])
      requires AllReached(Slots(arrays[..]), bucketCount, Home())
      requires home == ProbeAt(Home()(key), 0, bucketCount)
      requires Walking(Slots(arrays[..]), bucketCount, Home()(key), key, 0, e)
      ensures present <==> Located(Slots(arrays[..]), key)
      ensures i < |Slots(arrays[..])| && (present ==> At(Slots(arrays[..]), i, key))
      ensures !present ==>
        Slots(arrays[..])[i] == (if reuses then Deleted else Empty) &&
          Reached(Slots(arrays[..]), bucketCount, Home()(key), i)
    {
      hide Slots, AllValid, AllReached, LastVisit, Path, ProbeAt, Portion;
      ghost var s, h := Slots(arrays[..]), Home()(key);
      var first, probe := None, 0;
      i := home;
      while true
        invariant i == ProbeAt(h, probe, bucketCount)
        invariant Walking(s, bucketCount, h, key, probe, e) && SeenSoFar(s, h, probe, first)
        decreases 2 * bucketCount - probe
      {
        var hasValue, hasDeleted, sameKey := Inspect(i, key);
        if hasValue {
          if sameKey {
            return true, i, false;
          }
        } else if hasDeleted && probe < bucketCount {
          if first.None? {
            assert OnPath(s, bucketCount, h, probe, i);
            first := Count(i);
          }
        } else {
          LookupFails(s, bucketCount, Home(), key, probe);
          if first.Count? {
            return false, first.n, true;
          }
          NoTombstoneMet(s, h, key, probe, e);
          return false, i, false;
        }
        WalkGoesOn(s, bucketCount, h, key, probe, e);
        probe := probe + 1;
        i := NextBucket(i, probe, h);
      }
    }

    /** What a probe loop starts from, in a table with a bucket without a value. */
    lemma WalkCanStart(key: K, m: map<K, V>) returns (e: nat)
      requires Shape() && bucketCount > 0 && AllValid(arrays[..])
      requires Table(Slots(arrays[..]), bucketCount, Home(), m) && |m| < bucketCount
      ensures BucketForHash(mask, hash(key)) == ProbeAt(Home()(key), 0, bucketCount)
      ensures Walking(Slots(arrays[..]), bucketCount, Home()(key), key, 0, e)
    {
      HomeIsProbeZero(key);
      Covered();
      e := FreeBucketExists(Slots(arrays[..]), bucketCount, m);
      WalkStarts(Slots(arrays[..]), bucketCount, Home()(key), key, e);
    }

    /** The second half of `insert_impl`, on a table with room for one more. */
    method InsertUnlessPresent(key: K, value: V) returns (present: bool)
      requires Valid() && nbElements + 1 < bucketCount
      modifies this`contents, this`nbElements, this`nbDeleted, arrays
      ensures Valid() && (present <==> key in old(contents))
      ensures contents == if present then old(contents) else old(contents)[key := value]
    {
      ghost var e := WalkCanStart(key, contents);
      LocatedIff(Slots(arrays[..]), contents, key);
      var i, reuses;
      present, i, reuses := ProbeForInsert(BucketForHash(mask, hash(key)), key, e);
      if !present {
        PutNew(i, reuses, key, value);
      }
    }

    /** Insert an absent key where its probe says, and keep the counters. */
    method PutNew(i: nat, reuses: bool, key: K, value: V)
      requires Valid() && nbElements + 1 < bucketCount && key !in contents
      requires i < |Slots(arrays[..])| && Slots(arrays[..])[i] == (if reuses then Deleted else Empty)
      requires Reached(Slots(arrays[..]), bucketCount, Home()(key), i)
      modifies this`contents, this`nbElements, this`nbDeleted, arrays
      ensures Valid() && contents == old(contents)[key := value]
    {
      hide Table, Reached, Tombs, AllValid, Slots, Portion, WithDeleted, IsPow2, MaskFor, SparseCount, MaxBucketCount;
      hide ValidLoad;
      InsertInBucket(i, Entry(key, value), contents);
      CountInserted(reuses, key, value);
    }

    /** The counters after a value has been written. */
    method CountInserted(reuses: bool, key: K, value: V)
      requires Shape() && AllValid(arrays[..]) && Table(Slots(arrays[..]), bucketCount, Home(), contents[key := value])
      requires nbElements == |contents| && nbElements + 1 < bucketCount && key !in contents
      requires nbDeleted == |Tombs(Slots(arrays[..]))| + if reuses then 1 else 0
      modifies this`contents, this`nbElements, this`nbDeleted
      ensures Valid() && contents == old(contents)[key := value]
    {
      hide Table, Tombs, AllValid, Slots, Portion, WithDeleted, IsPow2, MaskFor, SparseCount, MaxBucketCount, ValidLoad;
      InsertedSize(contents, key, value);
      if reuses {
        nbDeleted := nbDeleted - 1;
      }
      nbElements := nbElements + 1;
      contents := contents[key := value];
    }

    /** The probe loop of `insert_on_rehash`: the first bucket without a value. */
    method ProbeFree(home: nat, key: K, ghost m: map<K, V>, ghost e: nat) returns (i: nat)
      requires Shape() && bucketCount > 0 && AllValid(arrays[..])
      requires Table(Slots(arrays[..]), bucketCount, Home(), m) && key !in m
      requires Tombs(Slots(arrays[..])) == {}
      requires home == ProbeAt(Home()(key), 0, bucketCount)
      requires Walking(Slots(arrays[..]), bucketCount, Home()(key), key, 0, e)
      ensures i < |Slots(arrays[..])| && Slots(arrays[..])[i] == Empty
      ensures Reached(Slots(arrays[..]), bucketCount, Home()(key), i)
    {
      ghost var s, h := Slots(arrays[..]), Home()(key);
      var probe := 0;
      i := home;
      while true
        invariant i == ProbeAt(h, probe, bucketCount)
        invariant Walking(s, bucketCount, h, key, probe, e) && SeenSoFar(s, h, probe, None)
        decreases 2 * bucketCount - probe
      {
        var hasValue, hasDeleted, sameKey := Inspect(i, key);
        if !hasValue {
          assert i !in Tombs(s);
          NoTombstoneMet(s, h, key, probe, e);
          return;
        }
        WalkGoesOn(s, bucketCount, h, key, probe, e);
        probe := probe + 1;
        i := NextBucket(i, probe, h);
      }
    }

    /** `insert_on_rehash`: the new table has no tombstones and does not hold the key. */
    method InsertOnRehash(x: Entry<K, V>, ghost m: map<K, V>)
      requires Shape() && bucketCount > 0 && AllValid(arrays[..])
      requires Table(Slots(arrays[..]), bucketCount, Home(), m) && x.key !in m && |m| < bucketCount
      requires Tombs(Slots(arrays[..])) == {}
      modifies arrays
      ensures AllValid(arrays[..]) && Table(Slots(arrays[..]), bucketCount, Home(), m[x.key := x.value])
      ensures Tombs(Slots(arrays[..])) == {}
    {
      ghost var e := WalkCanStart(x.key, m);
      var i := ProbeFree(BucketForHash(mask, hash(x.key)), x.key, m, e);
      InsertInBucket(i, x, m);
    }

    /** Move the value at offset `j` of one sparse array of an old table into this new one. */
    method MoveValue(old_: seq<Sparse<Entry<K, V>>>, a: nat, j: nat, ghost t: nat, ghost m: map<K, V>,
                     ghost moved0: map<K, V>)
        returns (ghost moved: map<K, V>, ghost u: nat)
      requires Shape() && AllValid(arrays[..]) && AllValid(old_) && a < |old_| && j < |old_[a].values|
      requires Table(Slots(arrays[..]), bucketCount, Home(), moved0) && Tombs(Slots(arrays[..])) == {}
      requires Unique(Slots(old_)) && Holds(Slots(old_), m)
      requires t <= BITMAP_NB_BITS && OffsetOf(old_[a].vals, t) == j
      requires Moved(Slots(old_), m, moved0, BITMAP_NB_BITS * a + t)
      requires |m| == 0 || |m| < bucketCount
      modifies arrays
      ensures AllValid(arrays[..]) && Table(Slots(arrays[..]), bucketCount, Home(), moved)
      ensures Tombs(Slots(arrays[..])) == {}
      ensures u < BITMAP_NB_BITS && OffsetOf(old_[a].vals, u + 1) == j + 1
      ensures Moved(Slots(old_), m, moved, BITMAP_NB_BITS * a + u + 1)
    {
      u := NextIndex(old_[a], j, t);
      NextPresent(old_, a, t, u);
      MoveNext(Slots(old_), m, moved0, BITMAP_NB_BITS * a + t, BITMAP_NB_BITS * a + u);
      InsertOnRehash(old_[a].values[j], moved0);
      moved := moved0[old_[a].values[j].key := old_[a].values[j].value];
    }

    /** Move the values of sparse array number `a` of an old table. */
    method MoveArray(old_: seq<Sparse<Entry<K, V>>>, a: nat, ghost m: map<K, V>, ghost moved0: map<K, V>)
        returns (ghost moved: map<K, V>)
      requires Shape() && AllValid(arrays[..]) && AllValid(old_) && a < |old_|
      requires Table(Slots(arrays[..]), bucketCount, Home(), moved0) && Tombs(Slots(arrays[..])) == {}
      requires Unique(Slots(old_)) && Holds(Slots(old_), m) && Moved(Slots(old_), m, moved0, BITMAP_NB_BITS * a)
      requires |m| == 0 || |m| < bucketCount
      modifies arrays
      ensures AllValid(arrays[..]) && Table(Slots(arrays[..]), bucketCount, Home(), moved)
      ensures Tombs(Slots(arrays[..])) == {}
      ensures Moved(Slots(old_), m, moved, BITMAP_NB_BITS * (a + 1))
    {
      hide Table, Holds, Unique, Moved;
      moved := moved0;
      ghost var t := 0;
      RankIsCount(old_[a].vals, 0);
      for j := 0 to |old_[a].values|
        invariant AllValid(arrays[..]) && Table(Slots(arrays[..]), bucketCount, Home(), moved)
        invariant Tombs(Slots(arrays[..])) == {}
        invariant 0 <= t <= BITMAP_NB_BITS && Moved(Slots(old_), m, moved, BITMAP_NB_BITS * a + t)
        invariant OffsetOf(old_[a].vals, t) == j
      {
        moved, t := MoveValue(old_, a, j, t, m, moved);
        t := t + 1;
      }
      NoMoreValues(old_, a, t);
      MoveOver(Slots(old_), m, moved, BITMAP_NB_BITS * a + t, BITMAP_NB_BITS * (a + 1));
    }

    /** The index of the value at offset `j`, given that the values before index `t` are the first `j`. */
    static lemma NextIndex(b: Sparse<Entry<K, V>>, j: nat, t: nat) returns (u: nat)
      requires b.Valid() && j < |b.values| && t <= BITMAP_NB_BITS && OffsetOf(b.vals, t) == j
      ensures t <= u < BITMAP_NB_BITS && b.HasValue(u) && OffsetOf(b.vals, u) == j && OffsetOf(b.vals, u + 1) == j + 1
      ensures forall i :: t <= i < u ==> !b.HasValue(i)
    {
      u := IndexExists(b.vals, j);
      OffsetsAround(b.vals, u);
      if u >= BITMAP_NB_BITS {
        BitAbove(b.vals, BITMAP_NB_BITS, u);
        assert false;
      }
      OffsetStep(b.vals, u);
      if u < t {
        OffsetOrder(b.vals, u, t);
        assert false;
      }
      forall i | t <= i < u
        ensures !b.HasValue(i)
      {
        OffsetOrder(b.vals, t, i);
      }
    }

    static lemma NextPresent(old_: seq<Sparse<Entry<K, V>>>, a: nat, t: nat, u: nat)
      requires AllValid(old_) && a < |old_| && t <= u < BITMAP_NB_BITS && old_[a].HasValue(u)
      requires forall i :: t <= i < u ==> !old_[a].HasValue(i)
      ensures BITMAP_NB_BITS * a + u < |Slots(old_)|
      ensures OffsetOf(old_[a].vals, u) < |old_[a].values|
      ensures Slots(old_)[BITMAP_NB_BITS * a + u] == SparseArray.Present(old_[a].values[OffsetOf(old_[a].vals, u)])
      ensures forall i :: BITMAP_NB_BITS * a + t <= i < BITMAP_NB_BITS * a + u ==> !Slots(old_)[i].Present?
    {
      old_[a].OffsetInRange(u);
      forall i | BITMAP_NB_BITS * a + t <= i < BITMAP_NB_BITS * a + u
        ensures !Slots(old_)[i].Present?
      {
        assert i / BITMAP_NB_BITS == a && t <= i % BITMAP_NB_BITS < u;
      }
    }

    static lemma NoMoreValues(old_: seq<Sparse<Entry<K, V>>>, a: nat, t: nat)
      requires AllValid(old_) && a < |old_| && t <= BITMAP_NB_BITS && OffsetOf(old_[a].vals, t) == |old_[a].values|
      ensures BITMAP_NB_BITS * (a + 1) <= |Slots(old_)|
      ensures forall i :: BITMAP_NB_BITS * a + t <= i < BITMAP_NB_BITS * (a + 1) ==> !Slots(old_)[i].Present?
    {
      forall i | BITMAP_NB_BITS * a + t <= i < BITMAP_NB_BITS * (a + 1)
        ensures !Slots(old_)[i].Present?
      {
        var j := i % BITMAP_NB_BITS;
        assert i / BITMAP_NB_BITS == a && t <= j;
        old_[a].OffsetInRange(j);
        OffsetOrder(old_[a].vals, t, j);
      }
    }

    /** The loops of `rehash_impl`: all values of the old arrays move into this new table. */
    method MoveAllFrom(old_: seq<Sparse<Entry<K, V>>>, ghost n: nat, ghost home: K -> nat, ghost m: map<K, V>)
      requires Shape() && AllValid(arrays[..]) && AllValid(old_)
      requires Table(Slots(arrays[..]), bucketCount, Home(), map[]) && Tombs(Slots(arrays[..])) == {}
      requires Table(Slots(old_), n, home, m)
      requires |m| == 0 || |m| < bucketCount
      modifies arrays
      ensures AllValid(arrays[..]) && Table(Slots(arrays[..]), bucketCount, Home(), m) && Tombs(Slots(arrays[..])) == {}
    {
      ghost var moved := map[];
      for a := 0 to |old_|
        invariant AllValid(arrays[..]) && Table(Slots(arrays[..]), bucketCount, Home(), moved)
        invariant Tombs(Slots(arrays[..])) == {}
        invariant Moved(Slots(old_), m, moved, BITMAP_NB_BITS * a)
      {
        moved := MoveArray(old_, a, m, moved);
      }
      MovedAll(Slots(old_), m, moved);
    }

    /** `rehash_impl`: build a table of at least `count` buckets and swap it in. */
    method RehashImpl(count: nat)
      requires Valid() && count <= MaxBucketCount()
      requires nbElements == 0 || nbElements < count
      modifies this
      ensures Valid() && fresh(arrays)
      ensures contents == old(contents) && nbElements == old(nbElements) && maxLoad == old(maxLoad) && nbDeleted == 0
      ensures if count == 0 then bucketCount == 0 else bucketCount >= count
      ensures count > 0 && IsPow2(count) ==> bucketCount == count
    {
      var t := new SparseHash<K, V>(count, hash, maxLoad);
      t.TombsOfNew();
      t.MoveAllFrom(arrays[..], bucketCount, Home(), contents);
      SwapIn(t);
    }

    lemma TombsOfNew()
      requires Valid() && nbDeleted == 0
      ensures Tombs(Slots(arrays[..])) == {}
    {
    }

    /** `new_table.swap(*this)` */
    method SwapIn(t: SparseHash<K, V>)
      requires t != this && t.hash == hash && t.Shape() && AllValid(t.arrays[..])
      requires Table(Slots(t.arrays[..]), t.bucketCount, HomeBy(hash, t.bucketCount), contents)
      requires Tombs(Slots(t.arrays[..])) == {}
      requires nbElements == |contents| && (if t.bucketCount == 0 then nbElements == 0 else nbElements < t.bucketCount)
      modifies this
      ensures Valid() && arrays == t.arrays && bucketCount == t.bucketCount && nbDeleted == 0
      ensures contents == old(contents) && nbElements == old(nbElements) && maxLoad == t.maxLoad
    {
      arrays, mask, bucketCount := t.arrays, t.mask, t.bucketCount;
      rehashThreshold, clearThreshold, maxLoad := t.rehashThreshold, t.clearThreshold, t.maxLoad;
      nbDeleted := 0;
    }

    predicate NeedsGrowth()
      reads this
    {
      nbElements >= rehashThreshold
    }

    /** What `insert_impl` does before it probes: grow a table at its load limit, or clear the
        tombstones when they and the values together have become too many. */
    method MakeRoom() returns (refused: bool)
      requires Valid()
      modifies this
      ensures Valid() && contents == old(contents) && maxLoad == old(maxLoad)
      ensures arrays == old(arrays) || fresh(arrays)
      ensures refused <==> old(NeedsGrowth() && NextBucketCount(mask).None?)
      ensures !refused ==> nbElements + 1 < bucketCount
      ensures !refused ==> bucketCount == if old(NeedsGrowth()) then 2 * (old(mask) + 1) else old(bucketCount)
      ensures !refused && old(NeedsGrowth() || Crowded()) ==> nbDeleted == 0
      ensures refused || !old(NeedsGrowth() || Crowded()) ==> unchanged(this)
    {
      if NeedsGrowth() {
        var next := NextBucketCount(mask);
        if next.None? {
          return true;
        }
        GrownFits();
        RehashImpl(next.n);
      } else {
        RoomBelowThreshold();
        CrowdedIff();
        if nbElements + nbDeleted >= clearThreshold {
          RehashImpl(bucketCount);
        }
      }
      return false;
    }

    /** Entries and tombstones together reach half way from the load factor to full. */
    ghost predicate Crowded()
      reads this
    {
      Reaches(nbElements + nbDeleted, bucketCount, (1.0 + maxLoad) / 2.0)
    }

    lemma CrowdedIff()
      requires Shape()
      ensures Crowded() <==> nbElements + nbDeleted >= clearThreshold
    {
      assert WithDeleted(maxLoad) == (1.0 + maxLoad) / 2.0;
      ReachesPortion(nbElements + nbDeleted, bucketCount, WithDeleted(maxLoad));
    }

    lemma RoomBelowThreshold()
      requires Valid() && !NeedsGrowth()
      ensures bucketCount > 0 && nbElements + 1 < bucketCount
    {
      if bucketCount > 0 {
        PortionBelow(bucketCount, maxLoad, MAX_LOAD);
      }
    }

    lemma GrownFits()
      requires Valid() && NextBucketCount(mask).Count?
      ensures var n := NextBucketCount(mask).n;
        IsPow2(n) && n == 2 * (mask + 1) <= MaxBucketCount() && nbElements + 1 < n
    {
      assert mask + 1 == bucketCount || mask + 1 == Pow2(0);
      Doubling(mask, NextBucketCount(mask).n);
    }

    /** `insert_impl`. The table may be refused its growth even for a key it holds. */
    method Insert(key: K, value: V) returns (res: InsertResult)
      requires Valid()
      modifies this, arrays
      ensures Valid() && (arrays == old(arrays) || fresh(arrays)) && maxLoad == old(maxLoad)
      ensures res.LengthError? <==> old(NeedsGrowth() && NextBucketCount(mask).None?)
      ensures res.Present? <==> key in old(contents) && !res.LengthError?
      ensures contents == if res.Inserted? then old(contents)[key := value] else old(contents)
      ensures if res.LengthError? then Form() == old(Form())
        else Reshaped(SPARSE_KIND, old(nbElements), old(Form()), true, Form())
    {
      hide SparseHash.NeedsGrowth, SparseHash.Crowded, DueToGrow, AtLimit, Reaches, NextBucketCount;
      hide Table, AllValid, Slots, Tombs;
      GrowthAsForm();
      var refused := MakeRoom();
      if refused {
        return LengthError;
      }
      var present := InsertUnlessPresent(key, value);
      return if present then InsertResult.Present else Inserted;
    }

    /** `insert_or_assign` */
    method InsertOrAssign(key: K, value: V) returns (res: InsertResult)
      requires Valid()
      modifies this, arrays
      ensures Valid() && (arrays == old(arrays) || fresh(arrays)) && maxLoad == old(maxLoad)
      ensures res.LengthError? <==> old(NeedsGrowth() && NextBucketCount(mask).None?)
      ensures res.Present? <==> key in old(contents) && !res.LengthError?
      ensures contents == if res.LengthError? then old(contents) else old(contents)[key := value]
      ensures if res.LengthError? then Form() == old(Form())
        else Reshaped(SPARSE_KIND, old(nbElements), old(Form()), true, Form())
    {
      res := Insert(key, value);
      if res.Present? {
        var pos := Lookup(key);
        Overwrite(pos.n, value);
      }
    }

    /** Assign through an iterator: the value changes, the key and the bitmaps stay. */
    method Overwrite(i: nat, value: V)
      requires Valid() && i < |Slots(arrays[..])| && Slots(arrays[..])[i].Present?
      modifies this`contents, arrays
      ensures Valid() && contents == old(contents[Slots(arrays[..])[i].value.key := value])
    {
      ghost var s, b := Slots(arrays[..]), arrays[..];
      SlotAt(b, i);
      Split(i);
      var a, j := Shr(i, 6), And(i, 63);
      var x := Entry(arrays[a].Value(j).key, value);
      ReplaceSlots(arrays[a], j, x);
      SlotsUpdate(b, i, Replace(arrays[a], j, x), SparseArray.Present(x));
      ReplaceTable(s, bucketCount, Home(), contents, i, value);
      arrays[a] := Replace(arrays[a], j, x);
      assert arrays[..] == b[a := Replace(b[a], j, x)];
      assert Tombs(s[i := SparseArray.Present(x)]) == Tombs(s);
      contents := contents[x.key := value];
    }

    method Clear()
      requires Valid()
      modifies this`contents, this`nbElements, this`nbDeleted, arrays
      ensures Valid() && contents == map[] && nbElements == 0 && nbDeleted == 0
    {
      for a := 0 to arrays.Length
        invariant forall i :: 0 <= i < a ==> arrays[i] == Sparse([], 0, 0)
      {
        arrays[a] := Sparse([], 0, 0);
      }
      NoSlots(arrays[..]);
      nbElements, nbDeleted, contents := 0, 0, map[];
    }

    /** The setter `max_load_factor(float)`. */
    method SetMaxLoadFactor(ml: real)
      requires Valid()
      modifies this`maxLoad, this`rehashThreshold, this`clearThreshold
      ensures Valid() && maxLoad == ClampLoad(ml, MAX_LOAD)
    {
      maxLoad := ClampLoad(ml, MAX_LOAD);
      rehashThreshold := Portion(bucketCount, maxLoad);
      clearThreshold := Portion(bucketCount, WithDeleted(maxLoad));
    }

    /** The public `rehash(count)`; `false` stands for the `length_error` of the constructor. */
    method Rehash(count: nat) returns (ok: bool)
      requires Valid()
      modifies this
      ensures Valid() && (arrays == old(arrays) || fresh(arrays)) && contents == old(contents)
      ensures maxLoad == old(maxLoad)
      ensures if ok then Fits(nbElements, bucketCount, maxLoad) else Form() == old(Form())
      ensures ok <==> count <= MaxBucketCount() && Fits(old(nbElements), MaxBucketCount(), old(maxLoad))
      ensures ok ==> nbDeleted == 0 && (count > 0 ==> bucketCount >= count)
    {
      var least := Ceil(nbElements, maxLoad);
      CeilAbove(nbElements, maxLoad, MAX_LOAD);
      var c: nat := if count > least then count else least;
      if c > MaxBucketCount() {
        return false;
      }
      RehashImpl(c);
      return true;
    }
  }

  method ServeInsert<K(==), V>(t: SparseHash<K, V>, key: K, value: V) returns (a: Answer<V>)
    requires t.Valid()
    modifies t, t.arrays
    ensures t.Valid() && (t.arrays == old(t.arrays) || fresh(t.arrays))
    ensures MapStep(SPARSE_KIND, old(t.contents), old(t.Form()), InsertOp(key, value), a, t.contents, t.Form())
  {
    hide Reshaped, DueToGrow, AtLimit, Table, AllValid, Slots, Tombs, SparseHash.NeedsGrowth, NextBucketCount;
    t.GrowthAsForm();
    var r := t.Insert(key, value);
    a := if r.Inserted? then Done else if r.Present? then Already else TooLarge;
  }

  method ServeAssign<K(==), V>(t: SparseHash<K, V>, key: K, value: V) returns (a: Answer<V>)
    requires t.Valid()
    modifies t, t.arrays
    ensures t.Valid() && (t.arrays == old(t.arrays) || fresh(t.arrays))
    ensures MapStep(SPARSE_KIND, old(t.contents), old(t.Form()), AssignOp(key, value), a, t.contents, t.Form())
  {
    hide Reshaped, DueToGrow, AtLimit, Table, AllValid, Slots, Tombs, SparseHash.NeedsGrowth, NextBucketCount;
    t.GrowthAsForm();
    var r := t.InsertOrAssign(key, value);
    a := if r.Inserted? then Done else if r.Present? then Already else TooLarge;
  }

  method ServeFind<K(==), V>(t: SparseHash<K, V>, key: K) returns (a: Answer<V>)
    requires t.Valid()
    ensures a == if key in t.contents then Value(t.contents[key]) else Absent
  {
    var pos := t.Find(key);
    if pos.Count? {
      var x := t.ValueAt(pos.n);
      a := Value(x.value);
    } else {
      a := Absent;
    }
  }

  method ServeRehash<K(==), V>(t: SparseHash<K, V>, count: nat) returns (a: Answer<V>)
    requires t.Valid()
    modifies t
    ensures t.Valid() && (t.arrays == old(t.arrays) || fresh(t.arrays))
    ensures MapStep(SPARSE_KIND, old(t.contents), old(t.Form()), RehashOp(count), a, t.contents, t.Form())
  {
    hide Table, AllValid, Slots, Tombs, Ceil;
    var ok := t.Rehash(count);
    a := if ok then Done else TooLarge;
  }

  method ServeErase<K(==), V>(t: SparseHash<K, V>, key: K) returns (a: Answer<V>)
    requires t.Valid()
    modifies t, t.arrays
    ensures t.Valid() && t.arrays == old(t.arrays)
    ensures MapStep(SPARSE_KIND, old(t.contents), old(t.Form()), EraseOp(key), a, t.contents, t.Form())
  {
    assert t.Form().maxLoad > 0.0;
    hide SparseHash.Valid;
    var n := t.Erase(key);
    a := if n == 1 then Done else Absent;
  }

  method ServeClear<K(==), V>(t: SparseHash<K, V>) returns (a: Answer<V>)
    requires t.Valid()
    modifies t, t.arrays
    ensures t.Valid() && t.arrays == old(t.arrays)
    ensures MapStep(SPARSE_KIND, old(t.contents), old(t.Form()), ClearOp, a, t.contents, t.Form())
  {
    assert t.Form().maxLoad > 0.0;
    hide SparseHash.Valid;
    t.Clear();
    a := Done;
  }

  method Serve<K(==), V>(t: SparseHash<K, V>, op: Op<K, V>) returns (a: Answer<V>)
    requires t.Valid()
    modifies t, t.arrays
    ensures t.Valid() && (t.arrays == old(t.arrays) || fresh(t.arrays))
    ensures MapStep(SPARSE_KIND, old(t.contents), old(t.Form()), op, a, t.contents, t.Form())
  {
    assert t.Form().maxLoad > 0.0;
    hide Reshaped, DueToGrow, AtLimit, Refused, RehashRefused, SparseHash.Valid, ClampLoad;
    match op
    case InsertOp(k, v) => a := ServeInsert(t, k, v);
    case AssignOp(k, v) => a := ServeAssign(t, k, v);
    case EraseOp(k) => a := ServeErase(t, k);
    case FindOp(k) => a := ServeFind(t, k);
    case ClearOp => a := ServeClear(t);
    case RehashOp(count) => a := ServeRehash(t, count);
    case MaxLoadOp(f) =>
      t.SetMaxLoadFactor(f);
      a := Done;
  }

  /** Over any run, from any initial bucket count, the table answers as a finite map does. */
  method Run<K(==), V>(bucketCount: nat, hash: K -> nat, ml: real, ops: seq<Op<K, V>>)
      returns (answers: seq<Answer<V>>, ghost ms: seq<map<K, V>>, ghost shapes: seq<Shape>)
    requires bucketCount <= MaxBucketCount()
    ensures MapRun(SPARSE_KIND, ms, shapes, ops, answers)
    ensures shapes[0].maxLoad == ClampLoad(ml, MAX_LOAD) && shapes[0].buckets >= bucketCount
    ensures bucketCount == 0 ==> shapes[0].buckets == 0
  {
    var t := new SparseHash<K, V>(bucketCount, hash, ml);
    answers, ms, shapes := [], [t.contents], [t.Form()];
    assert MapRun(SPARSE_KIND, ms, shapes, ops[..0], answers);
    hide *;
    for i := 0 to |ops|
      invariant t.Valid() && fresh(t) && fresh(t.arrays)
      invariant MapRun(SPARSE_KIND, ms, shapes, ops[..i], answers) && |ms| == |shapes| == i + 1 && ms[i] == t.contents
      invariant shapes[i] == t.Form()
      invariant shapes[0] == Shape(shapes[0].buckets, ClampLoad(ml, MAX_LOAD), false)
      invariant shapes[0].buckets >= bucketCount
      invariant bucketCount == 0 ==> shapes[0].buckets == 0
    {
      var a := Serve(t, ops[i]);
      ExtendRun(SPARSE_KIND, ms, shapes, ops[..i], answers, ops[i], a, t.contents, t.Form());
      assert ops[..i + 1] == ops[..i] + [ops[i]];
      answers, ms, shapes := answers + [a], ms + [t.contents], shapes + [t.Form()];
    }
    assert ops[..|ops|] == ops;
  }

  /** Run on a sparse table, an insertion into a map that is not very large is not refused. */
  lemma NotRefused<K, V>(ms: seq<map<K, V>>, shapes: seq<Shape>, ops: seq<Op<K, V>>, answers: seq<Answer<V>>, i: nat)
    requires MapRun(SPARSE_KIND, ms, shapes, ops, answers) && i < |ops| && (ops[i].InsertOp? || ops[i].AssignOp?)
    ensures answers[i] == TooLarge ==> (|ms[i]| + 1) as real > 0x4000_0000_0000_0000 as real * 0.1
  {
    if (|ms[i]| + 1) as real <= 0x4000_0000_0000_0000 as real * 0.1 {
      SmallIsNeverRefused(SPARSE_KIND, ms, shapes, ops, answers, i);
    }
  }
}
