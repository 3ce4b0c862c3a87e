/** `NeighborVec`, a bounded sorted vector, and the overload of `InsertIntoPool` that moves the entry
    pushed out of a full pool into such a vector. */
module NeighborVec {
  import opened BeamSearch
  import opened NeighborPool

  /** Entries with the id of `nn` have its distance, as when distances belong to ids. */
  ghost predicate Tied(s: seq<Neighbor>, nn: Neighbor) {
    forall i :: 0 <= i < |s| && s[i].id == nn.id ==> s[i].distance == nn.distance
  }

  ghost predicate PutIn(s: seq<Neighbor>, r: nat, nn: Neighbor, cap: nat, t: seq<Neighbor>) {
    r <= |s| && Sorted(Inserted(s, r, nn)) && t == if |s| < cap then Inserted(s, r, nn) else Inserted(s, r, nn)[..|s|]
  }

  /** What an insertion is to do: nothing for an id that is there, else keep the closest in order. */
  ghost predicate Takes(s: seq<Neighbor>, nn: Neighbor, cap: nat, t: seq<Neighbor>) {
    if HasId(s, nn.id) then t == s else exists r :: PutIn(s, r, nn, cap, t)
  }

  class NeighborVec {
    var v: array<Neighbor>
    var cap: nat
    var size: nat

    ghost predicate Fits()
      reads this
    {
      size <= cap && (cap > 0 ==> cap < v.Length)
    }

    ghost function Contents(): (s: seq<Neighbor>)
      requires Fits()
      reads this, v
      ensures |s| == size
    {
      if cap == 0 then [] else v[..size]
    }

    ghost predicate Valid()
      reads this, v
    {
      Fits() && Sorted(Contents())
    }

    constructor ()
      ensures Valid() && cap == 0 && Contents() == [] && fresh(v)
    {
      v := new Neighbor[0];
      cap, size := 0, 0;
    }

    /** `set_cap` */
    method SetCap(c: nat)
      requires Valid()
      modifies this
      ensures Valid() && cap == c && fresh(v)
      ensures Contents() == old(Contents())[..if old(size) < c then old(size) else c]
    {
      ghost var s := Contents();
      var resized := new Neighbor[c + 1];
      var n := if size < c then size else c;
      forall i | 0 <= i < n {
        resized[i] := v[i];
      }
      v, cap, size := resized, c, n;
      assert Contents() == s[..n];
    }

    /** `insert`. The size grows even when nothing was inserted, so the vector takes a wrong entry
        exactly when it holds the id and is not full. */
    method Insert(nn: Neighbor) returns (ghost r: nat)
      requires Valid() && cap > 0
      modifies this`size, v
      ensures Fits() && size == if old(size) < cap then old(size) + 1 else cap
      ensures r <= old(size) ==> PutIn(old(Contents()), r, nn, cap, Contents())
      ensures r > old(size) ==> old(HasId(Contents(), nn.id)) && v[..] == old(v[..])
      ensures old(Tied(Contents(), nn)) ==>
        (Takes(old(Contents()), nn, cap, Contents()) <==> !old(HasId(Contents(), nn.id)) || old(size) == cap)
    {
      ghost var s := Contents();
      if size == 0 {
        v[0] := nn;
        r := 0;
        assert Inserted(s, 0, nn) == [nn] == v[..1];
      } else {
        if size == cap && nn.distance >= v[size - 1].distance {
          r := size;
          InsertedSorted(s, size, nn);
          assert Inserted(s, size, nn)[..size] == s;
          assert PutIn(s, r, nn, cap, Contents());
          return;
        }
        var place := InsertIntoPool(v, size, nn);
        r := place;
        assert v[..size] == v[..size + 1][..size];
      }
      if size < cap {
        size := size + 1;
      }
      assert r <= |s| ==> PutIn(s, r, nn, cap, Contents());
    }

    /** `move_to`; `false` stands for the exit at a destination that is too small. */
    method MoveTo(des: array<Neighbor>, desIdx: nat, num0: nat) returns (ok: bool, num: nat)
      requires Valid() && des != v
      modifies this`size, v, des
      ensures Valid() && num == if num0 < old(size) then num0 else old(size)
      ensures ok <==> desIdx + num < des.Length
      ensures !ok ==> Contents() == old(Contents()) && des[..] == old(des[..])
      ensures ok ==> Contents() == old(Contents())[num..]
      ensures ok ==> des[..] == old(des[..desIdx]) + old(Contents())[..num] + old(des[desIdx + num..])
    {
      ghost var s, d := Contents(), des[..];
      num := if num0 < size then num0 else size;
      ok := desIdx + num < des.Length;
      if ok {
        forall i | 0 <= i < num {
          des[desIdx + i] := v[i];
        }
        assert des[..] == d[..desIdx] + s[..num] + d[desIdx + num..];
        forall i | 0 <= i < size - num {
          v[i] := v[num + i];
        }
        size := size - num;
        assert Contents() == s[num..];
      }
    }
  }

  /** The same entry twice, with room left: the size says two, and the second is not an entry put in. */
  method InsertTwice(nn: Neighbor) returns (vec: NeighborVec)
    ensures vec.Fits() && vec.cap == 2 && vec.size == 2 && vec.Contents()[0] == nn
    ensures !Takes([nn], nn, 2, vec.Contents())
  {
    vec := new NeighborVec();
    vec.SetCap(2);
    ghost var r := vec.Insert(nn);
    assert vec.Contents() == [nn];
    assert vec.Contents()[0].id == nn.id;
    r := vec.Insert(nn);
    assert [nn][0].id == nn.id;
  }

  /** The entry `e` at the end of the first part of a sorted list belongs at the start of the second. */
  lemma BothSorted(pool: seq<Neighbor>, kicked: seq<Neighbor>, r: nat, nn: Neighbor, q: nat)
    requires pool != [] && Sorted(pool + kicked) && r < |pool| && Sorted(Inserted(pool, r, nn))
    requires q <= |kicked| && Sorted(Inserted(kicked, q, pool[|pool| - 1]))
    ensures Sorted(Inserted(pool, r, nn)[..|pool|] + Inserted(kicked, q, pool[|pool| - 1]))
  {
    var worst := pool[|pool| - 1];
    var t, u := Inserted(pool, r, nn), Inserted(kicked, q, worst);
    InsertedIds(pool, r, nn);
    InsertedIds(kicked, q, worst);
    forall i | 0 <= i < |kicked|
      ensures worst.distance <= kicked[i].distance
    {
      assert (pool + kicked)[|pool| - 1] == worst && (pool + kicked)[|pool| + i] == kicked[i];
    }
    assert t[|pool|] == worst;
    assert forall i :: 0 <= i < |pool| ==> t[i].distance <= worst.distance;
    assert forall i :: 0 <= i < |u| ==> worst.distance <= u[i].distance;
  }

  lemma BothIds(a: seq<Neighbor>, b: seq<Neighbor>)
    ensures forall v :: HasId(a + b, v) <==> HasId(a, v) || HasId(b, v)
  {
    forall v | HasId(a, v) || HasId(b, v)
      ensures HasId(a + b, v)
    {
      if HasId(a, v) {
        var i :| 0 <= i < |a| && a[i].id == v;
        assert (a + b)[i].id == v;
      } else {
        var i :| 0 <= i < |b| && b[i].id == v;
        assert (a + b)[|a| + i].id == v;
      }
    }
  }

  /** Where the entry at `i` was before: -1 for the new one. */
  ghost function Origin(i: nat, L: nat, r: nat, q: nat): int {
    if i < L then (if i < r then i else if i == r then -1 else i - 1)
    else if i < L + q then i
    else if i == L + q then L - 1
    else i - 1
  }

  /** What the two parts are after a new entry came in and the worst of the first part went over. */
  ghost function After(pool: seq<Neighbor>, kicked: seq<Neighbor>, r: nat, nn: Neighbor, q: nat): seq<Neighbor>
    requires pool != [] && r <= |pool| && q <= |kicked|
  {
    Inserted(pool, r, nn)[..|pool|] + Inserted(kicked, q, pool[|pool| - 1])
  }

  lemma AfterEntries(pool: seq<Neighbor>, kicked: seq<Neighbor>, r: nat, nn: Neighbor, q: nat)
    requires pool != [] && r < |pool| && q <= |kicked|
    ensures var u, both := After(pool, kicked, r, nn, q), pool + kicked;
      && |u| == |both| + 1 && u[r] == nn
      && forall i :: 0 <= i < |u| && i != r ==>
           0 <= Origin(i, |pool|, r, q) < |both| && u[i] == both[Origin(i, |pool|, r, q)]
  {
    InsertedIds(pool, r, nn);
    InsertedIds(kicked, q, pool[|pool| - 1]);
  }

  lemma AfterHasIds(pool: seq<Neighbor>, kicked: seq<Neighbor>, r: nat, nn: Neighbor, q: nat)
    requires pool != [] && r < |pool| && q <= |kicked|
    ensures forall v :: v == nn.id || HasId(pool + kicked, v) ==> HasId(After(pool, kicked, r, nn, q), v)
  {
    var u, both := After(pool, kicked, r, nn, q), pool + kicked;
    AfterEntries(pool, kicked, r, nn, q);
    assert u[r].id == nn.id;
    forall v | HasId(both, v)
      ensures HasId(u, v)
    {
      var k :| 0 <= k < |both| && both[k].id == v;
      var i := if k < r then k else if k < |pool| - 1 then k + 1
               else if k == |pool| - 1 then |pool| + q else if k - |pool| < q then k else k + 1;
      assert Origin(i, |pool|, r, q) == k && u[i] == both[k];
    }
  }

  lemma AfterDistinct(pool: seq<Neighbor>, kicked: seq<Neighbor>, r: nat, nn: Neighbor, q: nat, seen: set<nat>,
                      dist: seq<real>)
    requires pool != [] && r < |pool| && q <= |kicked|
    requires Distinct(pool + kicked) && Measured(pool + kicked, dist)
    requires forall i :: 0 <= i < |pool + kicked| ==> (pool + kicked)[i].id in seen
    requires nn.id < |dist| && nn.distance == dist[nn.id] && nn.id !in seen
    ensures var u := After(pool, kicked, r, nn, q);
      Distinct(u) && Measured(u, dist) && forall i :: 0 <= i < |u| ==> u[i].id in seen + {nn.id}
  {
    hide After;
    AfterEntries(pool, kicked, r, nn, q);
  }

  lemma AllThere(u: seq<Neighbor>, both: seq<Neighbor>, seen: set<nat>, dist: seq<real>, nn: Neighbor, N: nat)
    requires PoolInvariant(both, seen, dist, N) && |both| < N && |u| == |both| + 1 && nn.id < |dist|
    requires Sorted(u) && Distinct(u) && Measured(u, dist) && forall i :: 0 <= i < |u| ==> u[i].id in seen + {nn.id}
    requires forall v :: v == nn.id || HasId(both, v) ==> HasId(u, v)
    ensures PoolInvariant(u, seen + {nn.id}, dist, N)
  {
  }

  lemma AllButWorst(u: seq<Neighbor>, both: seq<Neighbor>, seen: set<nat>, dist: seq<real>, nn: Neighbor, N: nat)
    requires PoolInvariant(both, seen, dist, N) && |both| == N > 0 && |u| == N + 1 && nn.id < |dist|
    requires Sorted(u) && Distinct(u) && Measured(u, dist) && forall i :: 0 <= i < |u| ==> u[i].id in seen + {nn.id}
    requires forall v :: v == nn.id || HasId(both, v) ==> HasId(u, v)
    requires u[N].distance == both[N - 1].distance
    ensures PoolInvariant(u[..N], seen + {nn.id}, dist, N)
  {
    DropWorst(u, seen + {nn.id}, dist, N);
  }

  /** The worst of both parts stays the worst. */
  lemma LastStays(pool: seq<Neighbor>, kicked: seq<Neighbor>, r: nat, nn: Neighbor, q: nat)
    requires pool != [] && kicked != [] && Sorted(pool + kicked) && r < |pool| && q <= |kicked|
    requires Sorted(Inserted(kicked, q, pool[|pool| - 1]))
    ensures |After(pool, kicked, r, nn, q)| == |pool + kicked| + 1
    ensures After(pool, kicked, r, nn, q)[|pool + kicked|].distance == (pool + kicked)[|pool + kicked| - 1].distance
    ensures After(pool, kicked, r, nn, q)[..|pool + kicked|] == Inserted(pool, r, nn)[..|pool|] +
      Inserted(kicked, q, pool[|pool| - 1])[..|kicked|]
  {
    var worst, last := pool[|pool| - 1], kicked[|kicked| - 1];
    var w := Inserted(kicked, q, worst);
    assert (pool + kicked)[|pool| - 1] == worst && (pool + kicked)[|pool + kicked| - 1] == last;
    InsertedIds(kicked, q, worst);
    assert q == |kicked| ==> w[|kicked|] == worst && w[|kicked| - 1] == last;
    assert After(pool, kicked, r, nn, q)[|pool + kicked|] == w[|kicked|];
  }

  /** The two vectors together stay the closest of all ids met. */
  lemma BothClosest(pool: seq<Neighbor>, kicked: seq<Neighbor>, seen: set<nat>, dist: seq<real>, L: nat, cap: nat,
                    nn: Neighbor, r: nat, q: nat, kicked': seq<Neighbor>)
    requires PoolInvariant(pool + kicked, seen, dist, L + cap) && |pool| == L > 0 && |kicked| <= cap && cap > 0
    requires nn.id < |dist| && nn.distance == dist[nn.id] && nn.id !in seen && r < L && Sorted(Inserted(pool, r, nn))
    requires PutIn(kicked, q, pool[L - 1], cap, kicked')
    ensures PoolInvariant(Inserted(pool, r, nn)[..L] + kicked', seen + {nn.id}, dist, L + cap)
  {
    var both, u := pool + kicked, After(pool, kicked, r, nn, q);
    AfterEntries(pool, kicked, r, nn, q);
    AfterHasIds(pool, kicked, r, nn, q);
    AfterDistinct(pool, kicked, r, nn, q, seen, dist);
    BothSorted(pool, kicked, r, nn, q);
    if |kicked| < cap {
      hide Sorted, Distinct, Measured, Closest, HasId;
      AllThere(u, both, seen, dist, nn, L + cap);
      assert u == Inserted(pool, r, nn)[..L] + kicked';
    } else {
      hide Sorted, Distinct, Measured, Closest, HasId;
      LastStays(pool, kicked, r, nn, q);
      AllButWorst(u, both, seen, dist, nn, L + cap);
      assert u[..L + cap] == Inserted(pool, r, nn)[..L] + kicked';
    }
  }

  /** Make room at `r`; what a full pool loses by it goes to `kicked`. */
  method MoveUpAndKick(addr: array<Neighbor>, r: nat, K: nat, kicked: NeighborVec, L: nat)
    requires r <= K < addr.Length && kicked.Valid() && kicked.cap > 0 && kicked.v != addr
    modifies addr, kicked`size, kicked.v
    ensures kicked.Fits() && addr[..r] == old(addr[..r]) && addr[r + 1..K + 1] == old(addr[r..K])
    ensures K != L || r == K ==> kicked.Contents() == old(kicked.Contents())
    ensures K == L && r < K ==>
      old(Tied(kicked.Contents(), addr[K - 1]) && !HasId(kicked.Contents(), addr[K - 1].id)) ==>
        Takes(old(kicked.Contents()), old(addr[K - 1]), kicked.cap, kicked.Contents())
  {
    hide Takes, PutIn, HasId, Sorted, Tied, Inserted;
    ghost var s := addr[..K];
    MoveUp(addr, r, K);
    if r < K && K == L {
      assert addr[K] == s[K - 1] by {
        assert addr[r + 1..K + 1][K - 1 - r] == s[r..][K - 1 - r];
      }
      ghost var q := kicked.Insert(addr[K]);
    }
  }

  /** `InsertIntoPool(addr, K, nn, kicked, L)`: an entry pushed out of a full pool goes to `kicked`.
      One that belongs behind a full pool goes nowhere. */
  method InsertOrKick(addr: array<Neighbor>, K: nat, nn: Neighbor, kicked: NeighborVec, L: nat) returns (r: nat)
    requires 1 <= K < addr.Length && Sorted(addr[..K])
    requires kicked.Valid() && kicked.cap > 0 && kicked.v != addr
    modifies addr, kicked`size, kicked.v
    ensures r <= K + 1 && kicked.Fits()
    ensures r == K + 1 ==> addr[..] == old(addr[..]) && HasId(addr[..K], nn.id)
    ensures r <= K ==> addr[..K + 1] == Inserted(old(addr[..K]), r, nn) && Sorted(addr[..K + 1])
    ensures r == K <==> old(addr[K - 1]).distance < nn.distance
    ensures K != L || r >= K ==> kicked.Contents() == old(kicked.Contents())
    ensures K == L && r < K ==>
      old(Tied(kicked.Contents(), addr[K - 1]) && !HasId(kicked.Contents(), addr[K - 1].id)) ==>
        Takes(old(kicked.Contents()), old(addr[K - 1]), kicked.cap, kicked.Contents())
  {
    ghost var s := addr[..K];
    r := FindPlace(addr, K, nn);
    if r <= K {
      InsertedSorted(s, r, nn);
      hide Takes, HasId, Sorted, Tied;
      MoveUpAndKick(addr, r, K, kicked, L);
      addr[r] := nn;
      assert addr[..r] == s[..r] && addr[r + 1..K + 1] == s[r..];
      assert addr[..K + 1] == addr[..r] + [addr[r]] + addr[r + 1..K + 1];
    }
  }

  /** Of a full pool and the vector behind it, taken together: the closest are kept if and only if the
      new entry is closer than the end of the pool, or is beyond a vector that is full. */
  lemma KickedKeepsIff(pool: seq<Neighbor>, kicked: seq<Neighbor>, seen: set<nat>, dist: seq<real>, L: nat, cap: nat,
                       nn: Neighbor, r: nat, pool': seq<Neighbor>, kicked': seq<Neighbor>)
    requires PoolInvariant(pool + kicked, seen, dist, L + cap) && |pool| == L > 0 && |kicked| <= cap && cap > 0
    requires nn.id < |dist| && nn.distance == dist[nn.id] && nn.id !in seen
    requires r <= L && (r == L <==> pool[L - 1].distance < nn.distance) && Sorted(Inserted(pool, r, nn))
    requires pool' == Inserted(pool, r, nn)[..L]
    requires if r < L then Takes(kicked, pool[L - 1], cap, kicked') else kicked' == kicked
    ensures PoolInvariant(pool' + kicked', seen + {nn.id}, dist, L + cap) <==>
      nn.distance <= pool[L - 1].distance || (|kicked| == cap && nn.distance >= kicked[cap - 1].distance)
  {
    var both := pool + kicked;
    NotInPool(both, seen, dist, L + cap, nn.id);
    if r < L {
      BothIds(pool, kicked);
      assert !HasId(kicked, pool[L - 1].id) by {
        forall i | 0 <= i < |kicked|
          ensures kicked[i].id != pool[L - 1].id
        {
          assert both[L + i] == kicked[i] && both[L - 1] == pool[L - 1];
        }
      }
      var q :| PutIn(kicked, q, pool[L - 1], cap, kicked');
      BothClosest(pool, kicked, seen, dist, L, cap, nn, r, q, kicked');
    } else {
      assert pool' == pool;
      if |kicked| == cap {
        assert both[L + cap - 1] == kicked[cap - 1];
      }
      if |kicked| == cap && nn.distance >= kicked[cap - 1].distance {
        RejectKeeps(both, seen, dist, L + cap, nn.id);
      }
    }
  }

  /** An entry beyond a full pool is lost although the vector behind the pool is empty. */
  lemma KickedLosesEntry(nn: Neighbor, pool: seq<Neighbor>)
    requires nn == Neighbor(1, 2.0, true) && pool == [Neighbor(0, 1.0, true)]
    ensures PoolInvariant(pool + [], {0}, [1.0, 2.0], 2)
    ensures Inserted(pool, 1, nn)[..1] == pool && !PoolInvariant(pool + [], {0, 1}, [1.0, 2.0], 2)
  {
    assert pool + [] == pool && pool[0].id == 0;
    assert HasId(pool, 0) && !HasId(pool, 1);
    KickedKeepsIff(pool, [], {0}, [1.0, 2.0], 1, 1, nn, 1, pool, []);
    assert {0} + {1} == {0, 1};
  }
}
