/** `merge_shards`: the graphs of overlapping shards, each read once and in order, are merged into one
    graph over the global ids. */
module MergeShards {
  import opened Sets

  /** The lists of a shard in the order of its file, in local ids. `idmap` has the global ids. */
  datatype Shard = Shard(idmap: seq<nat>, lists: seq<seq<nat>>, medoid: nat)

  ghost predicate Ascending(s: seq<nat>) {
    forall i, j :: 0 <= i < j < |s| ==> s[i] < s[j]
  }

  ghost predicate ShardOk(shard: Shard) {
    && Ascending(shard.idmap) && |shard.lists| == |shard.idmap| && shard.medoid < |shard.idmap|
    && forall j :: 0 <= j < |shard.lists| ==> forall w :: w in shard.lists[j] ==> w < |shard.idmap|
  }

  ghost predicate HasNode(shards: seq<Shard>, v: nat) {
    exists s :: 0 <= s < |shards| && v in shards[s].idmap
  }

  /** Every global id up to the largest is in some shard. */
  ghost predicate Covering(shards: seq<Shard>) {
    forall u: nat, v: nat {:trigger HasNode(shards, u), HasNode(shards, v)} :: u < v && HasNode(shards, v) ==>
      HasNode(shards, u)
  }

  /** `w` is the global id of an entry of the list. */
  ghost predicate Lists(idmap: seq<nat>, list: seq<nat>, w: nat) {
    exists k :: 0 <= k < |list| && list[k] < |idmap| && idmap[list[k]] == w
  }

  /** `v` and `w` are neighbours in the shard, by their global ids. */
  ghost predicate ShardEdge(shard: Shard, v: nat, w: nat) {
    exists j :: 0 <= j < |shard.idmap| && shard.idmap[j] == v && j < |shard.lists| &&
      Lists(shard.idmap, shard.lists[j], w)
  }

  ghost predicate UnionEdge(shards: seq<Shard>, v: nat, w: nat) {
    exists s :: 0 <= s < |shards| && ShardEdge(shards[s], v, w)
  }

  /** A merged list: no duplicates, only edges of the union, and all of them if they fit. */
  ghost predicate Merged(shards: seq<Shard>, v: nat, maxDegree: nat, list: seq<nat>) {
    && NoRepeats(list) && |list| <= maxDegree
    && (forall w :: w in list ==> UnionEdge(shards, v, w))
    && (|list| < maxDegree ==> forall w :: UnionEdge(shards, v, w) ==> w in list)
  }

  datatype NodeShard = NodeShard(node: nat, shard: nat)

  predicate Before(a: NodeShard, b: NodeShard) {
    a.node < b.node || (a.node == b.node && a.shard < b.shard)
  }

  ghost predicate InOrder(pairs: seq<NodeShard>) {
    forall i, j :: 0 <= i < j < |pairs| ==> Before(pairs[i], pairs[j])
  }

  ghost predicate AllPairs(shards: seq<Shard>, pairs: seq<NodeShard>) {
    forall p {:trigger p in pairs} :: p in pairs <==> p.shard < |shards| && p.node in shards[p.shard].idmap
  }

  /** The pairs of all shards, shard by shard. */
  method CollectPairs(shards: seq<Shard>) returns (pairs: seq<NodeShard>)
    requires forall s :: 0 <= s < |shards| ==> ShardOk(shards[s])
    ensures AllPairs(shards, pairs) && NoRepeats(pairs)
  {
    pairs := [];
    for s := 0 to |shards|
      invariant NoRepeats(pairs) && forall p :: p in pairs <==> p.shard < s && p.node in shards[p.shard].idmap
    {
      var idmap := shards[s].idmap;
      assert ShardOk(shards[s]);
      for j := 0 to |idmap|
        invariant NoRepeats(pairs)
        invariant forall p :: p in pairs <==>
          (p.shard < s && p.node in shards[p.shard].idmap) || (p.shard == s && p.node in idmap[..j])
      {
        assert idmap[..j + 1] == idmap[..j] + [idmap[j]];
        assert idmap[j] !in idmap[..j];
        pairs := pairs + [NodeShard(idmap[j], s)];
      }
      assert idmap[..|idmap|] == idmap;
    }
  }

  /** `std::sort` by node, then shard. */
  method SortPairs(pairs: seq<NodeShard>) returns (sorted: seq<NodeShard>)
    requires NoRepeats(pairs)
    ensures InOrder(sorted) && forall p :: p in sorted <==> p in pairs
  {
    sorted := [];
    for i := 0 to |pairs|
      invariant InOrder(sorted) && forall p :: p in sorted <==> p in pairs[..i]
    {
      assert pairs[..i + 1] == pairs[..i] + [pairs[i]];
      assert pairs[i] !in pairs[..i];
      var r := |sorted|;
      while r > 0 && Before(pairs[i], sorted[r - 1])
        invariant 0 <= r <= |sorted| && forall k :: r <= k < |sorted| ==> Before(pairs[i], sorted[k])
      {
        r := r - 1;
      }
      assert r > 0 ==> sorted[r - 1] in sorted && Before(sorted[r - 1], pairs[i]);
      assert forall p :: p in sorted <==> p in sorted[..r] || p in sorted[r..];
      sorted := sorted[..r] + [pairs[i]] + sorted[r..];
    }
    assert pairs[..|pairs|] == pairs;
  }

  /** How far each reader has come: the pairs before `i` are the records read so far. */
  ghost predicate ReadersOk(shards: seq<Shard>, pairs: seq<NodeShard>, i: nat, next: seq<nat>) {
    && |next| == |shards| && i <= |pairs|
    && (forall s :: 0 <= s < |shards| ==> next[s] <= |shards[s].idmap|)
    && (forall k :: 0 <= k < i ==>
         pairs[k].shard < |shards| && pairs[k].node in shards[pairs[k].shard].idmap[..next[pairs[k].shard]])
    && (forall s, j :: 0 <= s < |shards| && 0 <= j < next[s] ==> NodeShard(shards[s].idmap[j], s) in pairs[..i])
  }

  /** The next record of the shard's file is the one of the node at hand. */
  lemma NextRecord(shards: seq<Shard>, pairs: seq<NodeShard>, i: nat, next: seq<nat>)
    requires forall s :: 0 <= s < |shards| ==> ShardOk(shards[s])
    requires AllPairs(shards, pairs) && InOrder(pairs) && i < |pairs| && ReadersOk(shards, pairs, i, next)
    ensures var s := pairs[i].shard;
      s < |shards| && next[s] < |shards[s].idmap| && shards[s].idmap[next[s]] == pairs[i].node
  {
    var p := pairs[i];
    assert p in pairs;
    var idmap, m := shards[p.shard].idmap, next[p.shard];
    assert ShardOk(shards[p.shard]);
    var j :| 0 <= j < |idmap| && idmap[j] == p.node;
    assert p !in pairs[..i];
    assert j >= m;
    assert idmap[m] !in idmap[..m];
    var q := NodeShard(idmap[m], p.shard);
    assert q in pairs;
    var k :| 0 <= k < |pairs| && pairs[k] == q;
    assert k >= i;
  }

  lemma ReadNext(shards: seq<Shard>, pairs: seq<NodeShard>, i: nat, next: seq<nat>)
    requires forall s :: 0 <= s < |shards| ==> ShardOk(shards[s])
    requires AllPairs(shards, pairs) && InOrder(pairs) && i < |pairs| && ReadersOk(shards, pairs, i, next)
    ensures pairs[i].shard < |next| && ReadersOk(shards, pairs, i + 1, next[pairs[i].shard := next[pairs[i].shard] + 1])
  {
    NextRecord(shards, pairs, i, next);
    var s := pairs[i].shard;
    var idmap, m := shards[s].idmap, next[s];
    assert idmap[..m + 1] == idmap[..m] + [idmap[m]];
    assert pairs[..i + 1] == pairs[..i] + [pairs[i]];
    assert pairs[i] == NodeShard(idmap[m], s);
    var next' := next[s := m + 1];
    forall t, j | 0 <= t < |shards| && 0 <= j < next'[t]
      ensures NodeShard(shards[t].idmap[j], t) in pairs[..i + 1]
    {
      if t == s && j == m {
      } else {
        assert NodeShard(shards[t].idmap[j], t) in pairs[..i];
      }
    }
  }

  /** `w` is a neighbour of `v` according to the records read so far. */
  ghost predicate ReadEdge(shards: seq<Shard>, pairs: seq<NodeShard>, i: nat, v: nat, w: nat)
    requires i <= |pairs|
  {
    exists k :: 0 <= k < i && pairs[k].node == v && pairs[k].shard < |shards| && ShardEdge(shards[pairs[k].shard], v, w)
  }

  /** The neighbours collected for `v`, each once. */
  ghost predicate Gathered(shards: seq<Shard>, pairs: seq<NodeShard>, i: nat, v: nat, nhood: seq<nat>)
    requires i <= |pairs|
  {
    NoRepeats(nhood) && forall w {:trigger w in nhood} {:trigger ReadEdge(shards, pairs, i, v, w)} :: w in nhood <==>
      ReadEdge(shards, pairs, i, v, w)
  }

  /** `nhood_set` has a bit for each collected neighbour. */
  ghost predicate Marks(bits: seq<bool>, nhood: seq<nat>) {
    (forall w :: w in nhood ==> w < |bits|) && forall w :: 0 <= w < |bits| ==> (bits[w] <==> w in nhood)
  }

  /** Rename the neighbours of one record and collect those not met before. */
  method Rename(idmap: seq<nat>, list: seq<nat>, nhoodSet: array<bool>, nhood0: seq<nat>) returns (nhood: seq<nat>)
    requires (forall w :: w in list ==> w < |idmap|) && forall j :: 0 <= j < |idmap| ==> idmap[j] < nhoodSet.Length
    requires Marks(nhoodSet[..], nhood0) && NoRepeats(nhood0)
    modifies nhoodSet
    ensures Marks(nhoodSet[..], nhood) && NoRepeats(nhood)
    ensures forall w :: w in nhood <==> w in nhood0 || Lists(idmap, list, w)
  {
    nhood := nhood0;
    for j := 0 to |list|
      invariant Marks(nhoodSet[..], nhood) && NoRepeats(nhood)
      invariant forall w :: w in nhood <==> w in nhood0 || Lists(idmap, list[..j], w)
    {
      assert list[j] in list;
      ListsNext(idmap, list, j);
      var id := idmap[list[j]];
      if !nhoodSet[id] {
        ghost var bits := nhoodSet[..];
        nhoodSet[id] := true;
        assert nhoodSet[..] == bits[id := true];
        nhood := nhood + [id];
      }
    }
    assert list[..|list|] == list;
  }

  lemma ListsNext(idmap: seq<nat>, list: seq<nat>, j: nat)
    requires j < |list| && list[j] < |idmap|
    ensures forall w :: Lists(idmap, list[..j + 1], w) <==> Lists(idmap, list[..j], w) || w == idmap[list[j]]
  {
    forall w
      ensures Lists(idmap, list[..j + 1], w) <==> Lists(idmap, list[..j], w) || w == idmap[list[j]]
    {
      if Lists(idmap, list[..j], w) {
        var k :| 0 <= k < j && list[..j][k] < |idmap| && idmap[list[..j][k]] == w;
        assert list[..j + 1][k] == list[k];
      }
      if w == idmap[list[j]] {
        assert list[..j + 1][j] == list[j];
      }
      if Lists(idmap, list[..j + 1], w) {
        var k :| 0 <= k < j + 1 && list[..j + 1][k] < |idmap| && idmap[list[..j + 1][k]] == w;
        assert k < j ==> list[..j][k] == list[k];
      }
    }
  }

  /** The record of `pairs[i]` adds the neighbours its shard knows. */
  lemma GatherNext(shards: seq<Shard>, pairs: seq<NodeShard>, i: nat, next: seq<nat>, nhood: seq<nat>, nhood': seq<nat>)
    requires forall s :: 0 <= s < |shards| ==> ShardOk(shards[s])
    requires AllPairs(shards, pairs) && InOrder(pairs) && i < |pairs| && ReadersOk(shards, pairs, i, next)
    requires Gathered(shards, pairs, i, pairs[i].node, nhood) && NoRepeats(nhood')
    requires pairs[i].shard < |shards| && next[pairs[i].shard] < |shards[pairs[i].shard].lists|
    requires var shard := shards[pairs[i].shard];
      var list := shard.lists[next[pairs[i].shard]];
      forall w :: w in nhood' <==> w in nhood || Lists(shard.idmap, list, w)
    ensures Gathered(shards, pairs, i + 1, pairs[i].node, nhood')
  {
    NextRecord(shards, pairs, i, next);
    var v, shard, j := pairs[i].node, shards[pairs[i].shard], next[pairs[i].shard];
    assert ShardOk(shard);
    forall w
      ensures w in nhood' <==> ReadEdge(shards, pairs, i + 1, v, w)
    {
      assert Lists(shard.idmap, shard.lists[j], w) <==> ShardEdge(shard, v, w);
      assert w in nhood <==> ReadEdge(shards, pairs, i, v, w);
      if ReadEdge(shards, pairs, i, v, w) {
        var k :| 0 <= k < i && pairs[k].node == v && pairs[k].shard < |shards| && ShardEdge(shards[pairs[k].shard], v,
          w);
        assert ReadEdge(shards, pairs, i + 1, v, w);
      }
    }
  }

  /** `std::shuffle` */
  method Shuffle(s: seq<nat>) returns (t: seq<nat>)
    ensures multiset(t) == multiset(s)
  {
    t := [];
    var rest := s;
    while rest != []
      invariant multiset(t) + multiset(rest) == multiset(s)
      decreases |rest|
    {
      var j :| 0 <= j < |rest|;
      assert rest == rest[..j] + [rest[j]] + rest[j + 1..];
      t, rest := t + [rest[j]], rest[..j] + rest[j + 1..];
    }
  }

  lemma Shuffled(s: seq<nat>, t: seq<nat>)
    requires multiset(s) == multiset(t) && NoRepeats(s)
    ensures NoRepeats(t) && |s| == |t| && forall w :: w in s <==> w in t
  {
    assert |multiset(s)| == |multiset(t)|;
    forall w
      ensures w in s <==> w in t
    {
      assert w in s <==> w in multiset(s);
      assert w in t <==> w in multiset(t);
    }
    forall i, j | 0 <= i < j < |t|
      ensures t[i] != t[j]
    {
      if t[i] == t[j] {
        assert t == t[..j] + t[j..] && t[..j][i] == t[j] && t[j..][0] == t[j];
        assert multiset(t)[t[j]] >= 2;
        OnceAtMost(s, t[j]);
        assert false;
      }
    }
  }

  lemma {:induction false} OnceAtMost(s: seq<nat>, x: nat)
    requires NoRepeats(s)
    ensures multiset(s)[x] <= 1
  {
    if s != [] {
      var n := |s| - 1;
      OnceAtMost(s[..n], x);
      assert s == s[..n] + [s[n]] && s[n] !in s[..n];
      assert s[n] !in multiset(s[..n]);
    }
  }

  /** When all records of `v` have been read, what was collected is the union. */
  lemma CutIsMerged(shards: seq<Shard>, pairs: seq<NodeShard>, i: nat, v: nat, nhood: seq<nat>, shuffled: seq<nat>,
                    maxDegree: nat)
    requires AllPairs(shards, pairs) && i <= |pairs| && Gathered(shards, pairs, i, v, nhood)
    requires multiset(shuffled) == multiset(nhood)
    requires forall k :: i <= k < |pairs| ==> pairs[k].node != v
    ensures Merged(shards, v, maxDegree, shuffled[..if |shuffled| < maxDegree then |shuffled| else maxDegree])
  {
    Shuffled(nhood, shuffled);
    forall w | w in shuffled
      ensures UnionEdge(shards, v, w)
    {
      assert ReadEdge(shards, pairs, i, v, w);
    }
    forall w | UnionEdge(shards, v, w)
      ensures w in shuffled
    {
      var s :| 0 <= s < |shards| && ShardEdge(shards[s], v, w);
      assert NodeShard(v, s) in pairs;
      assert ReadEdge(shards, pairs, i, v, w);
    }
  }

  /** Between two nodes of the merge no id is left out. */
  lemma NextNode(shards: seq<Shard>, pairs: seq<NodeShard>, i: nat, curId: nat)
    requires Covering(shards) && AllPairs(shards, pairs) && InOrder(pairs) && i < |pairs|
    requires forall k :: 0 <= k < i ==> pairs[k].node <= curId
    ensures pairs[i].node <= curId + 1
  {
    assert pairs[i] in pairs;
    assert HasNode(shards, pairs[i].node);
    if HasNode(shards, curId + 1) {
      var s :| 0 <= s < |shards| && curId + 1 in shards[s].idmap;
      assert NodeShard(curId + 1, s) in pairs;
      var k :| 0 <= k < |pairs| && pairs[k] == NodeShard(curId + 1, s);
      assert k >= i;
    }
  }

  // The merged file.

  datatype MergedFile = MergedFile(declared: nat, width: nat, medoid: nat, frozen: nat, lists: seq<seq<nat>>)

  /** The bytes of the records: a count and the neighbours, four bytes each. */
  ghost function RecordBytes(lists: seq<seq<nat>>): nat {
    if lists == [] then 0 else RecordBytes(lists[..|lists| - 1]) + 4 + 4 * |lists[|lists| - 1]|
  }

  /** The bytes of the file: its size, the width, the medoid, the number of frozen points, the records. */
  ghost function FileBytes(file: MergedFile): nat {
    8 + 4 + 4 + 8 + RecordBytes(file.lists)
  }

  ghost predicate Bounded(shards: seq<Shard>, n: nat) {
    forall s, j {:trigger shards[s].idmap[j]} :: 0 <= s < |shards| && 0 <= j < |shards[s].idmap| ==>
      shards[s].idmap[j] < n
  }

  /** One more than the largest id. */
  method CountNodes(shards: seq<Shard>) returns (n: nat)
    ensures n >= 1 && Bounded(shards, n) && (n == 1 || HasNode(shards, n - 1))
  {
    var max := 0;
    for s := 0 to |shards|
      invariant forall t, k {:trigger shards[t].idmap[k]} :: 0 <= t < s && 0 <= k < |shards[t].idmap| ==>
        shards[t].idmap[k] <= max
      invariant max == 0 || HasNode(shards, max)
    {
      var idmap := shards[s].idmap;
      for j := 0 to |idmap|
        invariant forall t, k {:trigger shards[t].idmap[k]} :: 0 <= t < s && 0 <= k < |shards[t].idmap| ==>
          shards[t].idmap[k] <= max
        invariant max == 0 || HasNode(shards, max)
        invariant forall k :: 0 <= k < j ==> idmap[k] <= max
      {
        if idmap[j] > max {
          max := idmap[j];
          assert max in idmap;
        }
      }
    }
    n := max + 1;
  }

  lemma RecordBytesNext(lists: seq<seq<nat>>, list: seq<nat>)
    ensures RecordBytes(lists + [list]) == RecordBytes(lists) + 4 + 4 * |list|
  {
    assert (lists + [list])[..|lists|] == lists;
  }

  /** The end of a node: shuffle its neighbours, keep as many as the output width allows, and clear
      their bits. */
  method Finish(nhood: seq<nat>, maxDegree: nat, nhoodSet: array<bool>)
      returns (list: seq<nat>, ghost shuffled: seq<nat>)
    requires Marks(nhoodSet[..], nhood)
    modifies nhoodSet
    ensures multiset(shuffled) == multiset(nhood)
    ensures list == shuffled[..if |shuffled| < maxDegree then |shuffled| else maxDegree]
    ensures Marks(nhoodSet[..], [])
  {
    var all := Shuffle(nhood);
    shuffled := all;
    assert forall w :: w in all <==> w in multiset(all);
    assert forall w :: w in nhood <==> w in multiset(nhood);
    list := all[..if |all| < maxDegree then |all| else maxDegree];
    for j := 0 to |all|
      invariant forall w :: 0 <= w < nhoodSet.Length && nhoodSet[w] ==> w in all[j..]
    {
      assert all[j] in all && all[j..] == [all[j]] + all[j + 1..];
      nhoodSet[all[j]] := false;
    }
  }

  ghost predicate AllMerged(shards: seq<Shard>, maxDegree: nat, lists: seq<seq<nat>>) {
    forall v {:trigger lists[v]} :: 0 <= v < |lists| ==> Merged(shards, v, maxDegree, lists[v])
  }

  /** The variables of the merge loop. `declared` and `bytes` are the size to be declared and the
      number of bytes written. */
  datatype Progress = Progress(next: seq<nat>, curId: nat, nhood: seq<nat>, lists: seq<seq<nat>>, declared: nat,
    bytes: nat)

  /** The state of the merge before pair `i`: the records before it are read, the nodes before `curId`
      are written, and the neighbours of `curId` known so far are collected. */
  ghost predicate Merging(shards: seq<Shard>, pairs: seq<NodeShard>, maxDegree: nat, i: nat, p: Progress) {
    && i <= |pairs| && ReadersOk(shards, pairs, i, p.next) && Gathered(shards, pairs, i, p.curId, p.nhood)
    && (forall k :: 0 <= k < i ==> pairs[k].node <= p.curId)
    && |p.lists| == p.curId && AllMerged(shards, maxDegree, p.lists)
    && p.declared == p.bytes == 24 + RecordBytes(p.lists)
  }

  /** The node at hand has been read completely. */
  lemma NodeDone(shards: seq<Shard>, pairs: seq<NodeShard>, maxDegree: nat, i: nat, p: Progress, shuffled: seq<nat>)
    requires AllPairs(shards, pairs) && InOrder(pairs)
    requires Merging(shards, pairs, maxDegree, i, p) && multiset(shuffled) == multiset(p.nhood)
    requires i < |pairs| ==> p.curId < pairs[i].node
    ensures AllMerged(shards, maxDegree,
      p.lists + [shuffled[..if |shuffled| < maxDegree then |shuffled| else maxDegree]])
  {
    forall k | i <= k < |pairs|
      ensures pairs[k].node != p.curId
    {
      assert k > i ==> Before(pairs[i], pairs[k]);
    }
    CutIsMerged(shards, pairs, i, p.curId, p.nhood, shuffled, maxDegree);
  }

  /** Write the list of the node at hand. */
  method WriteNode(shards: seq<Shard>, pairs: seq<NodeShard>, maxDegree: nat, i: nat, p: Progress,
                   nhoodSet: array<bool>) returns (p': Progress)
    requires AllPairs(shards, pairs) && InOrder(pairs) && Merging(shards, pairs, maxDegree, i, p)
    requires Marks(nhoodSet[..], p.nhood)
    requires i < |pairs| ==> p.curId < pairs[i].node
    modifies nhoodSet
    ensures p'.next == p.next && p'.curId == p.curId + 1 == |p'.lists| && p'.nhood == [] && Marks(nhoodSet[..], [])
    ensures AllMerged(shards, maxDegree, p'.lists) && p'.declared == p'.bytes == 24 + RecordBytes(p'.lists)
  {
    var list; ghost var shuffled;
    list, shuffled := Finish(p.nhood, maxDegree, nhoodSet);
    NodeDone(shards, pairs, maxDegree, i, p, shuffled);
    RecordBytesNext(p.lists, list);
    p' := Progress(p.next, p.curId + 1, [], p.lists + [list], p.declared + (4 + |list| * 4), p.bytes + 4 + 4 * |list|);
  }

  /** Read the record of `pairs[i]` from its shard. */
  method ReadRecord(shards: seq<Shard>, pairs: seq<NodeShard>, maxDegree: nat, i: nat, p: Progress,
                    nhoodSet: array<bool>) returns (p': Progress)
    requires forall s :: 0 <= s < |shards| ==> ShardOk(shards[s])
    requires AllPairs(shards, pairs) && InOrder(pairs) && i < |pairs| && pairs[i].node == p.curId
    requires Bounded(shards, nhoodSet.Length)
    requires Merging(shards, pairs, maxDegree, i, p) && Marks(nhoodSet[..], p.nhood)
    modifies nhoodSet
    ensures Merging(shards, pairs, maxDegree, i + 1, p') && Marks(nhoodSet[..], p'.nhood) && p'.curId == p.curId
  {
    NextRecord(shards, pairs, i, p.next);
    ReadNext(shards, pairs, i, p.next);
    var shard := shards[pairs[i].shard];
    assert ShardOk(shard);
    var list := shard.lists[p.next[pairs[i].shard]];
    var nhood := Rename(shard.idmap, list, nhoodSet, p.nhood);
    GatherNext(shards, pairs, i, p.next, p.nhood, nhood);
    p' := p.(next := p.next[pairs[i].shard := p.next[pairs[i].shard] + 1], nhood := nhood);
  }

  /** One turn of the merge loop. */
  method MergePair(shards: seq<Shard>, pairs: seq<NodeShard>, maxDegree: nat, i: nat, p: Progress,
                   nhoodSet: array<bool>) returns (p': Progress)
    requires Covering(shards) && forall s :: 0 <= s < |shards| ==> ShardOk(shards[s])
    requires AllPairs(shards, pairs) && InOrder(pairs) && i < |pairs| && Bounded(shards, nhoodSet.Length)
    requires Merging(shards, pairs, maxDegree, i, p) && Marks(nhoodSet[..], p.nhood)
    requires if i > 0 then pairs[i - 1].node == p.curId else p.curId == 0
    modifies nhoodSet
    ensures Merging(shards, pairs, maxDegree, i + 1, p') && Marks(nhoodSet[..], p'.nhood) && pairs[i].node == p'.curId
  {
    p' := p;
    NextNode(shards, pairs, i, p.curId);
    assert i > 0 ==> Before(pairs[i - 1], pairs[i]);
    if p.curId < pairs[i].node {
      p' := WriteNode(shards, pairs, maxDegree, i, p, nhoodSet);
      assert forall w {:trigger ReadEdge(shards, pairs, i, p.curId + 1, w)} ::
        !ReadEdge(shards, pairs, i, p.curId + 1, w);
    }
    p' := ReadRecord(shards, pairs, maxDegree, i, p', nhoodSet);
  }

  /** The merge loop, from the sorted pairs on. */
  method MergeRecords(shards: seq<Shard>, pairs: seq<NodeShard>, maxDegree: nat, nnodes: nat) returns (p: Progress)
    requires Covering(shards) && forall s :: 0 <= s < |shards| ==> ShardOk(shards[s])
    requires AllPairs(shards, pairs) && InOrder(pairs) && Bounded(shards, nnodes) && nnodes >= 1
    requires nnodes == 1 || HasNode(shards, nnodes - 1)
    ensures |p.lists| == nnodes && AllMerged(shards, maxDegree, p.lists)
    ensures p.declared == p.bytes == 24 + RecordBytes(p.lists)
  {
    var nhoodSet := new bool[nnodes](_ => false);
    p := Progress(seq(|shards|, _ => 0), 0, [], [], 24, 24);
    for i := 0 to |pairs|
      invariant Merging(shards, pairs, maxDegree, i, p) && Marks(nhoodSet[..], p.nhood)
      invariant if i > 0 then pairs[i - 1].node == p.curId else p.curId == 0
    {
      p := MergePair(shards, pairs, maxDegree, i, p, nhoodSet);
    }
    LastNode(shards, pairs, nnodes, p.curId);
    p := WriteNode(shards, pairs, maxDegree, |pairs|, p, nhoodSet);
  }

  /** The merge. `bytes` is what has been written; the size in the file is written last, over the
      first field. */
  method Merge(shards: seq<Shard>, maxDegree: nat) returns (file: MergedFile, bytes: nat, medoids: seq<nat>)
    requires |shards| > 0 && Covering(shards) && forall s :: 0 <= s < |shards| ==> ShardOk(shards[s])
    ensures |file.lists| >= 1 && Bounded(shards, |file.lists|)
    ensures |file.lists| == 1 || HasNode(shards, |file.lists| - 1)
    ensures AllMerged(shards, maxDegree, file.lists)
    ensures file.declared == bytes == FileBytes(file)
    ensures |medoids| == |shards|
    ensures forall s :: 0 <= s < |shards| ==> ShardOk(shards[s]) && medoids[s] == shards[s].idmap[shards[s].medoid]
    ensures file.width == maxDegree && file.frozen == 0 && file.medoid == medoids[|shards| - 1]
  {
    var nnodes := CountNodes(shards);
    var pairs := CollectPairs(shards);
    pairs := SortPairs(pairs);
    medoids := [];
    for s := 0 to |shards|
      invariant |medoids| == s && forall t :: 0 <= t < s ==> medoids[t] == shards[t].idmap[shards[t].medoid]
    {
      assert ShardOk(shards[s]);
      medoids := medoids + [shards[s].idmap[shards[s].medoid]];
    }
    var p := MergeRecords(shards, pairs, maxDegree, nnodes);
    bytes := p.bytes;
    file := MergedFile(p.declared, maxDegree, medoids[|shards| - 1], 0, p.lists);
  }

  /** The last node of the merge is the one with the largest id. */
  lemma LastNode(shards: seq<Shard>, pairs: seq<NodeShard>, nnodes: nat, curId: nat)
    requires AllPairs(shards, pairs) && Bounded(shards, nnodes) && nnodes >= 1
    requires nnodes == 1 || HasNode(shards, nnodes - 1)
    requires (forall k :: 0 <= k < |pairs| ==> pairs[k].node <= curId)
    requires |pairs| > 0 ==> pairs[|pairs| - 1].node == curId
    requires |pairs| == 0 ==> curId == 0
    ensures curId + 1 == nnodes
  {
    if nnodes > 1 {
      var s :| 0 <= s < |shards| && nnodes - 1 in shards[s].idmap;
      assert NodeShard(nnodes - 1, s) in pairs;
    }
    if |pairs| > 0 {
      var p := pairs[|pairs| - 1];
      assert p in pairs;
      var j :| 0 <= j < |shards[p.shard].idmap| && shards[p.shard].idmap[j] == p.node;
    }
  }
}
