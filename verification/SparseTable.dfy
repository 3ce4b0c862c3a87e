/** The state of a sparse table as a value: its buckets in order, the paths of the quadratic probes,
    and the effect of single bucket writes. */
module SparseTable {
  import opened Sets
  import opened Bits
  import opened SparseArray
  import opened TriangularProbe

  datatype Entry<K, V> = Entry(key: K, value: V)

  /** No probe of `h` before probe `p` meets a bucket that was never used. */
  ghost predicate Path<E>(slots: seq<Slot<E>>, n: nat, h: nat, p: nat) {
    0 < n <= |slots| && forall q :: 0 <= q < p ==> slots[ProbeAt(h, q, n)] != Empty
  }

  ghost predicate OnPath<E>(slots: seq<Slot<E>>, n: nat, h: nat, p: nat, i: nat) {
    p < n && Path(slots, n, h, p) && ProbeAt(h, p, n) == i
  }

  /** A probe from `h` reaches bucket `i` without meeting a bucket that was never used. */
  ghost predicate Reached<E>(slots: seq<Slot<E>>, n: nat, h: nat, i: nat) {
    exists p: nat :: OnPath(slots, n, h, p, i)
  }

  ghost predicate AllReached<K, V>(slots: seq<Slot<Entry<K, V>>>, n: nat, home: K -> nat) {
    forall i :: 0 <= i < |slots| && slots[i].Present? ==> Reached(slots, n, home(slots[i].value.key), i)
  }

  ghost predicate Unique<K, V>(slots: seq<Slot<Entry<K, V>>>) {
    forall i, j ::
      0 <= i < |slots| && 0 <= j < |slots| && slots[i].Present? && slots[j].Present? ==>
        slots[i].value.key == slots[j].value.key ==> i == j
  }

  ghost predicate At<K, V>(slots: seq<Slot<Entry<K, V>>>, i: int, k: K) {
    0 <= i < |slots| && slots[i].Present? && slots[i].value.key == k
  }

  ghost predicate Holds<K, V>(slots: seq<Slot<Entry<K, V>>>, m: map<K, V>) {
    && (forall i :: 0 <= i < |slots| && slots[i].Present? ==>
         slots[i].value.key in m && m[slots[i].value.key] == slots[i].value.value)
    && (forall k {:trigger Located(slots, k)} :: k in m ==> Located(slots, k))
  }

  ghost predicate Located<K, V>(slots: seq<Slot<Entry<K, V>>>, k: K) {
    exists i :: At(slots, i, k)
  }

  ghost predicate Table<K, V>(slots: seq<Slot<Entry<K, V>>>, n: nat, home: K -> nat, m: map<K, V>) {
    AllReached(slots, n, home) && Unique(slots) && Holds(slots, m)
  }

  lemma LocatedIff<K, V>(slots: seq<Slot<Entry<K, V>>>, m: map<K, V>, k: K)
    requires Holds(slots, m)
    ensures Located(slots, k) <==> k in m
  {
  }

  /** The tombstones. */
  ghost function Tombs<E>(slots: seq<Slot<E>>): set<nat> {
    set i | 0 <= i < |slots| && slots[i] == Deleted
  }

  lemma {:induction false} KeysBelow<K, V>(slots: seq<Slot<Entry<K, V>>>, m: map<K, V>, n: nat) returns (keys: set<K>)
    requires n <= |slots| && Unique(slots) && Holds(slots, m)
    requires forall i :: 0 <= i < n ==> slots[i].Present?
    ensures |keys| == n && keys <= m.Keys
    ensures forall k :: k in keys ==> exists i :: At(slots, i, k) && i < n
  {
    if n == 0 {
      keys := {};
    } else {
      keys := KeysBelow(slots, m, n - 1);
      var k := slots[n - 1].value.key;
      assert forall i :: At(slots, i, k) ==> i == n - 1;
      assert k !in keys;
      assert At(slots, n - 1, k);
      keys := keys + {k};
    }
  }

  /** Fewer values than buckets leave a bucket without a value. */
  lemma FreeBucketExists<K, V>(slots: seq<Slot<Entry<K, V>>>, n: nat, m: map<K, V>) returns (e: nat)
    requires Unique(slots) && Holds(slots, m) && |m| < n <= |slots|
    ensures e < n && !slots[e].Present?
  {
    if forall i :: 0 <= i < n ==> slots[i].Present? {
      var keys := KeysBelow(slots, m, n);
      SubsetSize(keys, m.Keys);
      assert false;
    }
    e :| 0 <= e < n && !slots[e].Present?;
  }

  /** After `n` probes every bucket has been looked at; before that, the path of a key that is
      present leads past no bucket that was never used. */
  lemma LookupFails<K, V>(slots: seq<Slot<Entry<K, V>>>, n: nat, home: K -> nat, k: K, p: nat)
    requires IsPow2(n) && n <= |slots| && AllReached(slots, n, home)
    requires forall q :: 0 <= q < p ==> !At(slots, ProbeAt(home(k), q, n), k)
    requires p >= n || slots[ProbeAt(home(k), p, n)] == Empty
    ensures !Located(slots, k)
  {
  }

  /** The walk of a lookup: `p` probes have met neither the key nor a bucket that was never used;
      the bucket `e` has no value, and the walk ends at it by its second visit at the latest. */
  ghost predicate Walking<K, V>(slots: seq<Slot<Entry<K, V>>>, n: nat, h: nat, k: K, p: nat, e: nat) {
    && 0 < n <= |slots| && e < n && !slots[e].Present?
    && Path(slots, n, h, p)
    && (forall q :: 0 <= q < p ==> !At(slots, ProbeAt(h, q, n), k))
    && exists r: nat :: LastVisit(h, n, e, p, r)
  }

  ghost predicate LastVisit(h: nat, n: nat, e: nat, p: nat, r: nat) {
    n > 0 && r < n && ProbeAt(h, r, n) == e && p <= 2 * n - 1 - r
  }

  lemma WalkStarts<K, V>(slots: seq<Slot<Entry<K, V>>>, n: nat, h: nat, k: K, e: nat)
    requires IsPow2(n) && n <= |slots| && e < n && !slots[e].Present?
    ensures Walking(slots, n, h, k, 0, e)
  {
    var r := EveryBucketVisited(h, n, e);
    assert LastVisit(h, n, e, 0, r);
  }

  lemma WalkGoesOn<K, V>(slots: seq<Slot<Entry<K, V>>>, n: nat, h: nat, k: K, p: nat, e: nat)
    requires Walking(slots, n, h, k, p, e)
    requires !At(slots, ProbeAt(h, p, n), k)
    requires slots[ProbeAt(h, p, n)].Present? || (slots[ProbeAt(h, p, n)] == Deleted && p < n)
    ensures Walking(slots, n, h, k, p + 1, e) && p < 2 * n
  {
    var r: nat :| LastVisit(h, n, e, p, r);
    Mirror(h, r, n);
    assert LastVisit(h, n, e, p + 1, r);
  }

  lemma PathUpdate<E>(slots: seq<Slot<E>>, n: nat, h: nat, i: nat, j: nat, x: Slot<E>)
    requires Reached(slots, n, h, i) && j < |slots| && x != Empty
    ensures Reached(slots[j := x], n, h, i)
  {
    var p: nat :| OnPath(slots, n, h, p, i);
    assert OnPath(slots[j := x], n, h, p, i);
  }

  /** Putting a new key where its probe may put it. */
  lemma PutTable<K, V>(slots: seq<Slot<Entry<K, V>>>, n: nat, home: K -> nat, m: map<K, V>, i: nat, x: Entry<K, V>)
    requires Table(slots, n, home, m) && i < |slots| && !slots[i].Present? && x.key !in m
    requires Reached(slots, n, home(x.key), i)
    ensures Table(slots[i := Present(x)], n, home, m[x.key := x.value])
  {
    var slots', m' := slots[i := Present(x)], m[x.key := x.value];
    PathUpdate(slots, n, home(x.key), i, i, Present(x));
    forall j | 0 <= j < |slots'| && slots'[j].Present?
      ensures Reached(slots', n, home(slots'[j].value.key), j)
    {
      if j != i {
        PathUpdate(slots, n, home(slots[j].value.key), j, i, Present(x));
      }
    }
    forall k | k in m'
      ensures Located(slots', k)
    {
      if k == x.key {
        assert At(slots', i, k);
      } else {
        assert Located(slots, k);
        var j :| At(slots, j, k);
        assert At(slots', j, k);
      }
    }
  }

  /** Assigning a new value to a key that is present. */
  lemma ReplaceTable<K, V>(slots: seq<Slot<Entry<K, V>>>, n: nat, home: K -> nat, m: map<K, V>, i: nat, v: V)
    requires Table(slots, n, home, m) && i < |slots| && slots[i].Present?
    ensures Table(slots[i := Present(Entry(slots[i].value.key, v))], n, home, m[slots[i].value.key := v])
  {
    var k := slots[i].value.key;
    BuryTable(slots, n, home, m, i);
    PathUpdate(slots, n, home(k), i, i, Deleted);
    PutTable(slots[i := Deleted], n, home, m - {k}, i, Entry(k, v));
    assert slots[i := Deleted][i := Present(Entry(k, v))] == slots[i := Present(Entry(k, v))];
    assert (m - {k})[k := v] == m[k := v];
  }

  /** Replacing a value by a tombstone. */
  lemma BuryTable<K, V>(slots: seq<Slot<Entry<K, V>>>, n: nat, home: K -> nat, m: map<K, V>, i: nat)
    requires Table(slots, n, home, m) && i < |slots| && slots[i].Present?
    ensures Table(slots[i := Deleted], n, home, m - {slots[i].value.key})
  {
    var slots', m' := slots[i := Deleted], m - {slots[i].value.key};
    forall j | 0 <= j < |slots'| && slots'[j].Present?
      ensures Reached(slots', n, home(slots'[j].value.key), j)
    {
      PathUpdate(slots, n, home(slots[j].value.key), j, i, Deleted);
    }
    forall k | k in m'
      ensures Located(slots', k)
    {
      assert Located(slots, k);
      var j :| At(slots, j, k);
      assert At(slots', j, k);
    }
  }

  /** `moved` holds the entries of the first `t` buckets of a table of contents `m`. */
  ghost predicate Moved<K, V>(slots: seq<Slot<Entry<K, V>>>, m: map<K, V>, moved: map<K, V>, t: nat) {
    && t <= |slots|
    && (forall k :: k in moved ==> k in m && moved[k] == m[k])
    && (forall i :: 0 <= i < |slots| && slots[i].Present? ==> (slots[i].value.key in moved <==> i < t))
  }

  lemma MoveNext<K, V>(slots: seq<Slot<Entry<K, V>>>, m: map<K, V>, moved: map<K, V>, t: nat, u: nat)
    requires Moved(slots, m, moved, t) && Unique(slots) && Holds(slots, m)
    requires t <= u < |slots| && slots[u].Present? && forall i :: t <= i < u ==> !slots[i].Present?
    ensures slots[u].value.key !in moved && |moved| < |m|
    ensures Moved(slots, m, moved[slots[u].value.key := slots[u].value.value], u + 1)
  {
    var x := slots[u].value;
    assert moved.Keys <= m.Keys;
    ProperSubsetSize(moved.Keys, m.Keys, x.key);
  }

  lemma MoveOver<K, V>(slots: seq<Slot<Entry<K, V>>>, m: map<K, V>, moved: map<K, V>, t: nat, u: nat)
    requires Moved(slots, m, moved, t) && t <= u <= |slots| && forall i :: t <= i < u ==> !slots[i].Present?
    ensures Moved(slots, m, moved, u)
  {
  }

  lemma MovedAll<K, V>(slots: seq<Slot<Entry<K, V>>>, m: map<K, V>, moved: map<K, V>)
    requires Moved(slots, m, moved, |slots|) && Holds(slots, m)
    ensures moved == m
  {
    forall k | k in m
      ensures k in moved
    {
      assert Located(slots, k);
      var i :| At(slots, i, k);
    }
  }
}
