/** The state of a Robin Hood table as a value: the sequence of its buckets, the invariant that
    lets a lookup stop early, and the effect of single bucket writes on it. */
module RobinTable {
  import opened Sets

  /** `dist` is how far the entry lies from its home bucket; `stamp` is the truncated hash. */
  datatype Bucket<K, V> = Empty | Full(dist: nat, stamp: nat, key: K, value: V)

  function Dist<K, V>(b: Bucket<K, V>): (d: int)
    ensures d >= -1 && (d == -1 <==> b.Empty?)
  {
    if b.Full? then b.dist else -1
  }

  function Next(i: nat, n: nat): (r: nat)
    requires i < n
    ensures r < n
  {
    if i + 1 == n then 0 else i + 1
  }

  ghost function Prev(i: nat, n: nat): (r: nat)
    requires i < n
    ensures r < n && Next(r, n) == i
  {
    if i == 0 then n - 1 else i - 1
  }

  /** The bucket `d` places after `i`. */
  ghost function Forward(i: nat, d: nat, n: nat): (r: nat)
    requires i < n && d < n
    ensures r < n
  {
    if i + d < n then i + d else i + d - n
  }

  /** How many places `j` lies after `i`. */
  ghost function Offset(i: nat, j: nat, n: nat): (d: nat)
    requires i < n && j < n
    ensures d < n && Forward(i, d, n) == j
  {
    if i <= j then j - i else j - i + n
  }

  /** Every entry records its true distance from its home bucket. */
  ghost predicate Placed<K, V>(b: seq<Bucket<K, V>>, home: K -> nat) {
    forall i :: 0 <= i < |b| && b[i].Full? ==>
      && home(b[i].key) < |b|
      && b[i].dist == Offset(home(b[i].key), i, |b|)
  }

  /** Along the ring the distance grows by at most one per bucket. */
  ghost predicate Ordered<K, V>(b: seq<Bucket<K, V>>) {
    forall i :: 0 <= i < |b| ==> Dist(b[Next(i, |b|)]) <= Dist(b[i]) + 1
  }

  ghost predicate Unique<K, V>(b: seq<Bucket<K, V>>) {
    forall i, j :: 0 <= i < |b| && 0 <= j < |b| && b[i].Full? && b[j].Full? && b[i].key == b[j].key ==> i == j
  }

  ghost predicate At<K, V>(b: seq<Bucket<K, V>>, i: int, k: K) {
    0 <= i < |b| && b[i].Full? && b[i].key == k
  }

  /** The buckets hold exactly the entries of `m`. */
  ghost predicate Holds<K, V>(b: seq<Bucket<K, V>>, m: map<K, V>) {
    && (forall i :: 0 <= i < |b| && b[i].Full? ==> b[i].key in m && m[b[i].key] == b[i].value)
    && (forall k :: k in m ==> exists i :: At(b, i, k))
  }

  /** Entries carry the stamp of their key's hash. */
  ghost predicate Stamped<K, V>(b: seq<Bucket<K, V>>, stamp: K -> nat) {
    forall i :: 0 <= i < |b| && b[i].Full? ==> b[i].stamp == stamp(b[i].key)
  }

  /** Everything but the order: kept even in the middle of a backward shift. */
  ghost predicate Loose<K, V>(b: seq<Bucket<K, V>>, home: K -> nat, stamp: K -> nat, m: map<K, V>) {
    Placed(b, home) && Stamped(b, stamp) && Unique(b) && Holds(b, m)
  }

  ghost predicate Table<K, V>(b: seq<Bucket<K, V>>, home: K -> nat, stamp: K -> nat, m: map<K, V>) {
    Loose(b, home, stamp, m) && Ordered(b)
  }

  /** All the buckets from the home of an entry up to the entry itself are at least as far from
      their homes as the probe that passes them: the reason why a lookup may stop early. */
  lemma {:induction false} Chain<K, V>(b: seq<Bucket<K, V>>, home: K -> nat, p: nat, j: nat)
    requires p < |b| && b[p].Full? && Placed(b, home) && Ordered(b)
    requires j <= b[p].dist
    ensures Dist(b[Forward(home(b[p].key), j, |b|)]) >= j
    decreases b[p].dist - j
  {
    var h := home(b[p].key);
    if j < b[p].dist {
      Chain(b, home, p, j + 1);
      assert Next(Forward(h, j, |b|), |b|) == Forward(h, j + 1, |b|);
    }
  }

  /** A probe that meets a bucket poorer than itself has gone past every place its key may be. */
  lemma EarlyStop<K, V>(b: seq<Bucket<K, V>>, home: K -> nat, k: K, d: nat)
    requires Placed(b, home) && Ordered(b)
    requires home(k) < |b| && d < |b| && Dist(b[Forward(home(k), d, |b|)]) < d
    requires forall i :: At(b, i, k) ==> b[i].dist >= d
    ensures forall i :: !At(b, i, k)
  {
    forall i | At(b, i, k)
      ensures false
    {
      Chain(b, home, i, d);
    }
  }

  lemma {:induction false} KeysBelow<K, V>(b: seq<Bucket<K, V>>, m: map<K, V>, n: nat) returns (keys: set<K>)
    requires n <= |b| && Unique(b) && Holds(b, m)
    requires forall i :: 0 <= i < n ==> b[i].Full?
    ensures |keys| == n && keys <= m.Keys
    ensures forall k :: k in keys ==> exists i :: At(b, i, k) && i < n
  {
    if n == 0 {
      keys := {};
    } else {
      keys := KeysBelow(b, m, n - 1);
      var k := b[n - 1].key;
      assert forall i :: At(b, i, k) ==> i == n - 1;
      assert k !in keys;
      assert At(b, n - 1, k);
      keys := keys + {k};
    }
  }

  /** Fewer entries than buckets leave an empty bucket. */
  lemma EmptyBucketExists<K, V>(b: seq<Bucket<K, V>>, m: map<K, V>) returns (e: nat)
    requires Unique(b) && Holds(b, m) && |m| < |b|
    ensures e < |b| && b[e].Empty?
  {
    if forall i :: 0 <= i < |b| ==> b[i].Full? {
      var keys := KeysBelow(b, m, |b|);
      SubsetSize(keys, m.Keys);
      assert false;
    }
    e :| 0 <= e < |b| && b[e].Empty?;
  }

  lemma TableHasRoom<K, V>(b: seq<Bucket<K, V>>, home: K -> nat, stamp: K -> nat, m: map<K, V>) returns (e: nat)
    requires Table(b, home, stamp, m) && |m| < |b|
    ensures e < |b| && b[e].Empty?
  {
    e := EmptyBucketExists(b, m);
  }

  lemma EntryOf<K, V>(b: seq<Bucket<K, V>>, home: K -> nat, stamp: K -> nat, m: map<K, V>, i: nat)
    requires Table(b, home, stamp, m) && i < |b| && b[i].Full?
    ensures Loose(b, home, stamp, m)
    ensures b[i].key in m && m[b[i].key] == b[i].value && |m - {b[i].key}| == |m| - 1
    ensures b[i].stamp == stamp(b[i].key) && home(b[i].key) < |b| && b[i].dist == Offset(home(b[i].key), i, |b|)
  {
    var k := b[i].key;
    assert (m - {k}).Keys == m.Keys - {k};
  }

  lemma AssignedSize<K, V>(m: map<K, V>, k: K, v: V)
    requires k in m
    ensures |m[k := v]| == |m|
  {
    assert m[k := v].Keys == m.Keys;
  }

  /** Writing an entry over an empty bucket. */
  lemma Fill<K, V>(b: seq<Bucket<K, V>>, home: K -> nat, stamp: K -> nat, m: map<K, V>, i: nat, x: Bucket<K, V>)
    requires Loose(b, home, stamp, m) && i < |b| && b[i].Empty?
    requires x.Full? && x.key !in m && x.stamp == stamp(x.key)
    requires home(x.key) < |b| && x.dist == Offset(home(x.key), i, |b|)
    ensures Loose(b[i := x], home, stamp, m[x.key := x.value])
  {
    var b', m' := b[i := x], m[x.key := x.value];
    forall k | k in m'
      ensures exists j :: At(b', j, k)
    {
      if k == x.key {
        assert At(b', i, k);
      } else {
        var j :| At(b, j, k);
        assert At(b', j, k);
      }
    }
  }

  /** Emptying a bucket. */
  lemma Clear<K, V>(b: seq<Bucket<K, V>>, home: K -> nat, stamp: K -> nat, m: map<K, V>, i: nat)
    requires Loose(b, home, stamp, m) && i < |b| && b[i].Full?
    ensures Loose(b[i := Empty], home, stamp, m - {b[i].key})
  {
    var b', m' := b[i := Empty], m - {b[i].key};
    forall k | k in m'
      ensures exists j :: At(b', j, k)
    {
      var j :| At(b, j, k);
      assert At(b', j, k);
    }
  }

  /** Exchanging the entry of a bucket for another one. */
  lemma Swap<K, V>(b: seq<Bucket<K, V>>, home: K -> nat, stamp: K -> nat, m: map<K, V>, i: nat, x: Bucket<K, V>)
    requires Loose(b, home, stamp, m) && i < |b| && b[i].Full?
    requires x.Full? && x.key !in m && x.stamp == stamp(x.key)
    requires home(x.key) < |b| && x.dist == Offset(home(x.key), i, |b|)
    ensures Loose(b[i := x], home, stamp, (m - {b[i].key})[x.key := x.value])
  {
    Clear(b, home, stamp, m, i);
    Fill(b[i := Empty], home, stamp, m - {b[i].key}, i, x);
    assert b[i := Empty][i := x] == b[i := x];
  }

  /** One step of the backward shift: the entry after the hole moves into it. */
  lemma ShiftBack<K, V>(b: seq<Bucket<K, V>>, home: K -> nat, stamp: K -> nat, m: map<K, V>, p: nat, q: nat)
    requires Loose(b, home, stamp, m) && p < |b| && q == Next(p, |b|) && p != q
    requires b[p].Empty? && b[q].Full? && b[q].dist > 0
    ensures Loose(b[p := b[q].(dist := b[q].dist - 1)][q := Empty], home, stamp, m)
  {
    var x := b[q].(dist := b[q].dist - 1);
    Clear(b, home, stamp, m, q);
    Fill(b[q := Empty], home, stamp, m - {x.key}, p, x);
    assert b[q := Empty][p := x] == b[p := x][q := Empty];
    assert (m - {x.key})[x.key := x.value] == m;
  }

  /** Where a probe for an absent key stops: `d` places from its home, at a bucket poorer than the
      probe, after buckets that are not; and an empty bucket is still ahead. */
  ghost predicate StopsAt<K, V>(b: seq<Bucket<K, V>>, h: nat, i: nat, d: nat, e: nat) {
    && h < |b| && i < |b| && e < |b| && b[e].Empty?
    && d == Offset(h, i, |b|)
    && d + Offset(i, e, |b|) < |b|
    && Dist(b[Prev(i, |b|)]) >= d - 1
  }

  lemma FillOrdered<K, V>(b: seq<Bucket<K, V>>, i: nat, x: Bucket<K, V>)
    requires Ordered(b) && i < |b| && x.Full? && Dist(b[i]) < x.dist
    requires Dist(b[Prev(i, |b|)]) >= x.dist - 1
    ensures Ordered(b[i := x])
  {
    var b' := b[i := x];
    forall j | 0 <= j < |b'|
      ensures Dist(b'[Next(j, |b'|)]) <= Dist(b'[j]) + 1
    {
      assert Dist(b[Next(j, |b|)]) <= Dist(b[j]) + 1;
      if Next(j, |b|) == i {
        assert j == Prev(i, |b|);
      }
    }
  }

  /** The order while a hole travels forward: it may be broken only just after the hole. */
  ghost predicate OrderedButAfter<K, V>(b: seq<Bucket<K, V>>, p: nat) {
    && p < |b| && b[p].Empty?
    && (forall i :: 0 <= i < |b| && i != p ==> Dist(b[Next(i, |b|)]) <= Dist(b[i]) + 1)
    && Dist(b[Next(p, |b|)]) <= Dist(b[Prev(p, |b|)]) + 2
  }

  lemma ClearOrdered<K, V>(b: seq<Bucket<K, V>>, p: nat)
    requires Ordered(b) && p < |b| && b[p].Full? && |b| >= 2
    ensures OrderedButAfter(b[p := Empty], p)
  {
    assert Dist(b[Next(p, |b|)]) <= Dist(b[p]) + 1;
    assert Dist(b[Next(Prev(p, |b|), |b|)]) <= Dist(b[Prev(p, |b|)]) + 1;
    var b' := b[p := Empty];
    forall i | 0 <= i < |b'| && i != p
      ensures Dist(b'[Next(i, |b'|)]) <= Dist(b'[i]) + 1
    {
      assert Dist(b[Next(i, |b|)]) <= Dist(b[i]) + 1;
    }
  }

  lemma ShiftBackOrdered<K, V>(b: seq<Bucket<K, V>>, p: nat, q: nat)
    requires OrderedButAfter(b, p) && q == Next(p, |b|) && p != q && b[q].Full? && b[q].dist > 0
    ensures OrderedButAfter(b[p := b[q].(dist := b[q].dist - 1)][q := Empty], q)
  {
    var n := |b|;
    var b' := b[p := b[q].(dist := b[q].dist - 1)][q := Empty];
    assert Dist(b[Next(q, n)]) <= Dist(b[q]) + 1;
    assert Prev(q, n) == p;
    forall i | 0 <= i < n && i != q
      ensures Dist(b'[Next(i, n)]) <= Dist(b'[i]) + 1
    {
      if i != p {
        assert Dist(b[Next(i, n)]) <= Dist(b[i]) + 1;
        if Next(i, n) == p {
          assert i == Prev(p, n);
        }
      }
    }
  }

  lemma HoleCloses<K, V>(b: seq<Bucket<K, V>>, p: nat)
    requires OrderedButAfter(b, p) && Dist(b[Next(p, |b|)]) <= 0
    ensures Ordered(b)
  {
  }

  /** An entry on its way to bucket `i`, with the empty bucket `e` still ahead of it. */
  ghost predicate Carried<K, V>(b: seq<Bucket<K, V>>, home: K -> nat, stamp: K -> nat, x: Bucket<K, V>, i: nat,
                                e: nat) {
    x.Full? && x.stamp == stamp(x.key) && StopsAt(b, home(x.key), i, x.dist, e)
  }

  /** `moved` holds the entries of the first `n` buckets of a table of contents `m`. */
  ghost predicate Moved<K, V>(b: seq<Bucket<K, V>>, m: map<K, V>, moved: map<K, V>, n: nat) {
    && n <= |b|
    && (forall k :: k in moved ==> k in m && moved[k] == m[k] && exists i :: At(b, i, k) && i < n)
    && (forall i :: 0 <= i < n && b[i].Full? ==> b[i].key in moved)
  }

  lemma MoveNext<K, V>(b: seq<Bucket<K, V>>, m: map<K, V>, moved: map<K, V>, n: nat)
    requires Moved(b, m, moved, n) && n < |b| && Unique(b) && Holds(b, m)
    ensures b[n].Empty? ==> Moved(b, m, moved, n + 1)
    ensures b[n].Full? ==> b[n].key !in moved && Moved(b, m, moved[b[n].key := b[n].value], n + 1)
    ensures |moved| <= |m|
  {
    assert moved.Keys <= m.Keys;
    SubsetSize(moved.Keys, m.Keys);
    if b[n].Full? {
      var x := b[n];
      assert At(b, n, x.key);
      var moved' := moved[x.key := x.value];
      forall k | k in moved'
        ensures exists i :: At(b, i, k) && i < n + 1
      {
        if k != x.key {
          var i :| At(b, i, k) && i < n;
          assert At(b, i, k) && i < n + 1;
        }
      }
    }
  }

  lemma MovedAll<K, V>(b: seq<Bucket<K, V>>, m: map<K, V>, moved: map<K, V>)
    requires Moved(b, m, moved, |b|) && Holds(b, m)
    ensures moved == m
  {
    forall k | k in m
      ensures k in moved
    {
      var i :| At(b, i, k);
    }
  }

  /** The order looks at distances only. */
  lemma SameOrder<K, V>(b: seq<Bucket<K, V>>, c: seq<Bucket<K, V>>)
    requires Ordered(b) && |b| == |c| && forall i :: 0 <= i < |b| ==> Dist(b[i]) == Dist(c[i])
    ensures Ordered(c)
  {
    forall i | 0 <= i < |c|
      ensures Dist(c[Next(i, |c|)]) <= Dist(c[i]) + 1
    {
      assert Dist(b[Next(i, |b|)]) <= Dist(b[i]) + 1;
    }
  }

  /** Assigning a new value to the entry of a bucket. */
  lemma ReplaceValue<K, V>(b: seq<Bucket<K, V>>, home: K -> nat, stamp: K -> nat, m: map<K, V>, i: nat, v: V)
    requires Table(b, home, stamp, m) && i < |b| && b[i].Full?
    ensures Table(b[i := b[i].(value := v)], home, stamp, m[b[i].key := v])
  {
    var x := b[i].(value := v);
    Clear(b, home, stamp, m, i);
    Fill(b[i := Empty], home, stamp, m - {x.key}, i, x);
    SameOrder(b, b[i := x]);
    assert b[i := Empty][i := x] == b[i := x] && (m - {x.key})[x.key := v] == m[x.key := v];
  }
}
