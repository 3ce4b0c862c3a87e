/** `compact_data` on values: where every location goes, and that the graph keeps its shape. */
module Compaction {
  import opened BeamSearch
  import opened GraphLists
  import opened NaturalNumbers
  import opened Sets
  import opened SlotState

  /** How many live locations are below `n`. */
  ghost function Rank(live: set<nat>, n: nat): (r: nat)
    ensures r <= n
  {
    if n == 0 then 0 else Rank(live, n - 1) + if n - 1 in live then 1 else 0
  }

  lemma {:induction false} RankGrows(live: set<nat>, m: nat, n: nat)
    requires m <= n
    ensures Rank(live, m) <= Rank(live, n) <= Rank(live, m) + (n - m)
    ensures m in live && m < n ==> Rank(live, m) < Rank(live, n)
  {
    if m < n {
      RankGrows(live, m, n - 1);
    }
  }

  lemma RanksBelow(live: set<nat>, n: nat)
    ensures forall l :: l in live && l < n ==> Rank(live, l) < Rank(live, n)
  {
    forall l | l in live && l < n
      ensures Rank(live, l) < Rank(live, n)
    {
      RankGrows(live, l, n);
    }
  }

  lemma {:induction false} RankCounts(live: set<nat>, n: nat)
    ensures Rank(live, n) == |live * Below(n)|
  {
    hide Below;
    if n == 0 {
      assert live * Below(0) == {};
    } else {
      RankCounts(live, n - 1);
      CountNext(live, n);
    }
  }

  lemma CountNext(live: set<nat>, n: nat)
    requires n > 0
    ensures |live * Below(n)| == |live * Below(n - 1)| + if n - 1 in live then 1 else 0
  {
    hide Below;
    if n - 1 in live {
      assert live * Below(n) == live * Below(n - 1) + {n - 1};
    } else {
      assert live * Below(n) == live * Below(n - 1);
    }
  }

  /** Every new location is taken. */
  lemma {:induction false} RankOnto(live: set<nat>, n: nat, i: nat) returns (l: nat)
    requires i < Rank(live, n)
    ensures l in live && l < n && Rank(live, l) == i
  {
    if i < Rank(live, n - 1) {
      l := RankOnto(live, n - 1, i);
    } else {
      l := n - 1;
    }
  }

  /** The new location: live ones move up to be the first, a frozen one stays. */
  ghost function Moved(live: set<nat>, max: nat, v: nat): nat {
    if v < max then Rank(live, v) else v
  }

  lemma MovedInjective(live: set<nat>, max: nat, u: nat, v: nat)
    requires (u in live && u < max) || u == max
    requires (v in live && v < max) || v == max
    ensures Moved(live, max, u) == Moved(live, max, v) ==> u == v
    ensures u < max ==> Moved(live, max, u) < |live| && Moved(live, max, u) <= u
  {
    if u < max {
      RankGrows(live, u, max);
      RankCounts(live, max);
      SubsetSize(live * Below(max), live);
    }
    if u < v {
      RankGrows(live, u, v);
    } else if v < u {
      RankGrows(live, v, u);
    }
  }

  ghost predicate Dangling(live: set<nat>, max: nat, v: nat) {
    v < max && v !in live
  }

  /** A list with its dangling edges erased and the others renamed. */
  ghost function Renamed(list: seq<nat>, live: set<nat>, max: nat): seq<nat> {
    if list == [] then [] else
      var v := list[|list| - 1];
      Renamed(list[..|list| - 1], live, max) + if Dangling(live, max, v) then [] else [Moved(live, max, v)]
  }

  /** Without dangling edges each entry is renamed in place. */
  lemma {:induction false} RenamedInOrder(list: seq<nat>, live: set<nat>, max: nat)
    requires forall v :: v in list ==> !Dangling(live, max, v)
    ensures |Renamed(list, live, max)| == |list|
    ensures forall k :: 0 <= k < |list| ==> Renamed(list, live, max)[k] == Moved(live, max, list[k])
  {
    if list != [] {
      RenamedInOrder(list[..|list| - 1], live, max);
    }
  }

  lemma RenamedNext(list: seq<nat>, n: nat, live: set<nat>, max: nat)
    requires n < |list|
    ensures Renamed(list[..n + 1], live, max) ==
      Renamed(list[..n], live, max) + if Dangling(live, max, list[n]) then [] else [Moved(live, max, list[n])]
  {
    assert list[..n + 1][..n] == list[..n];
  }

  /** The loop over one adjacency list. */
  method RenameEdges(list0: seq<nat>, newLocation: seq<nat>, empty: set<nat>, ghost live: set<nat>, ghost max: nat)
      returns (list: seq<nat>)
    requires forall v :: v in list0 ==> v < |newLocation| && (v in empty <==> Dangling(live, max, v))
    requires forall v :: v in list0 && v !in empty ==> newLocation[v] == Moved(live, max, v)
    ensures list == Renamed(list0, live, max)
  {
    hide Renamed, Moved, Dangling;
    assert Renamed([], live, max) == [] by { RenamedInOrder([], live, max); }
    list := list0;
    var i := 0;
    ghost var n: nat := 0;
    while i < |list|
      invariant n <= |list0| && i == |Renamed(list0[..n], live, max)|
      invariant list == Renamed(list0[..n], live, max) + list0[n..]
      decreases |list| - i
    {
      assert list[i] == list0[n] && list0[n] in list0;
      RenamedNext(list0, n, live, max);
      if list[i] in empty {
        list := list[..i] + list[i + 1..];
      } else {
        list := list[i := newLocation[list[i]]];
        i := i + 1;
      }
      n := n + 1;
    }
    assert list0[..n] == list0;
  }

  /** The graph after compaction: the lists of the nodes, renamed, where their owners went. */
  ghost predicate Compacted(graph: Graph, live: set<nat>, max: nat, graph': Graph) {
    && |graph| == |graph'| == max + 1
    && (forall u {:trigger graph[u]} :: u in live + {max} && u <= max ==>
         graph'[Moved(live, max, u)] == Renamed(graph[u], live, max))
    && forall u {:trigger graph'[u]} :: |live| <= u < max ==> graph'[u] == []
  }

  lemma MovedNode(live: set<nat>, max: nat, u': nat) returns (u: nat)
    requires live <= Below(max) && (u' < |live| || u' == max)
    ensures u in live + {max} && u <= max && Moved(live, max, u) == u'
  {
    if u' == max {
      u := max;
    } else {
      RankCounts(live, max);
      assert live * Below(max) == live;
      u := RankOnto(live, max, u');
    }
  }

  /** Compaction is an isomorphism: the same edges between the same points under their new names, in
      the same order. */
  lemma CompactedIsomorphic(graph: Graph, live: set<nat>, max: nat, graph': Graph)
    requires live <= Below(max) && Compacted(graph, live, max, graph') && GraphOk(graph, live + {max})
    ensures forall u :: u in live + {max} ==>
      && |graph'[Moved(live, max, u)]| == |graph[u]|
      && forall k :: 0 <= k < |graph[u]| ==> graph'[Moved(live, max, u)][k] == Moved(live, max, graph[u][k])
    ensures forall u, v :: u in live + {max} && v in live + {max} ==>
      (Edge(graph, u, v) <==> Edge(graph', Moved(live, max, u), Moved(live, max, v)))
  {
    forall u | u in live + {max}
      ensures |graph'[Moved(live, max, u)]| == |graph[u]|
      ensures forall k :: 0 <= k < |graph[u]| ==> graph'[Moved(live, max, u)][k] == Moved(live, max, graph[u][k])
      ensures forall v :: v in live + {max} ==>
        (Edge(graph, u, v) <==> Edge(graph', Moved(live, max, u), Moved(live, max, v)))
    {
      assert ListOk(graph[u], live + {max});
      RenamedInOrder(graph[u], live, max);
      EdgesMoved(graph, live, max, graph', u);
    }
  }

  lemma EdgesMoved(graph: Graph, live: set<nat>, max: nat, graph': Graph, u: nat)
    requires live <= Below(max) && |graph| == |graph'| == max + 1 && u in live + {max} && Moved(live, max, u) <= max
    requires ListOk(graph[u], live + {max})
    requires |graph'[Moved(live, max, u)]| == |graph[u]|
    requires forall k :: 0 <= k < |graph[u]| ==> graph'[Moved(live, max, u)][k] == Moved(live, max, graph[u][k])
    ensures forall v :: v in live + {max} ==>
      (Edge(graph, u, v) <==> Edge(graph', Moved(live, max, u), Moved(live, max, v)))
  {
    var u' := Moved(live, max, u);
    forall v | v in live + {max}
      ensures Edge(graph, u, v) <==> Edge(graph', u', Moved(live, max, v))
    {
      if Edge(graph, u, v) {
        var k :| 0 <= k < |graph[u]| && graph[u][k] == v;
        assert graph'[u'][k] == Moved(live, max, v);
      }
      if Edge(graph', u', Moved(live, max, v)) {
        var k :| 0 <= k < |graph'[u']| && graph'[u'][k] == Moved(live, max, v);
        MovedInjective(live, max, graph[u][k], v);
      }
    }
  }

  lemma CompactedOk(graph: Graph, live: set<nat>, max: nat, graph': Graph)
    requires live <= Below(max) && Compacted(graph, live, max, graph') && GraphOk(graph, live + {max})
    ensures GraphOk(graph', Below(|live|) + {max})
    ensures forall b {:trigger DegreesWithin(graph', Below(|live|) + {max}, b)} ::
      DegreesWithin(graph, live + {max}, b) ==> DegreesWithin(graph', Below(|live|) + {max}, b)
  {
    SubsetSize(live, Below(max));
    forall u' {:trigger graph'[u']} | u' in Below(|live|) + {max}
      ensures ListOk(graph'[u'], Below(|live|) + {max})
      ensures forall b :: DegreesWithin(graph, live + {max}, b) ==> |graph'[u']| <= b
    {
      var u := MovedNode(live, max, u');
      assert ListOk(graph[u], live + {max});
      RenamedInOrder(graph[u], live, max);
      RenamedOk(graph[u], live, max);
    }
    forall b | DegreesWithin(graph, live + {max}, b)
      ensures DegreesWithin(graph', Below(|live|) + {max}, b)
    {
    }
  }

  lemma RenamedOk(list: seq<nat>, live: set<nat>, max: nat)
    requires live <= Below(max) && ListOk(list, live + {max})
    ensures ListOk(Renamed(list, live, max), Below(|live|) + {max})
  {
    RenamedInOrder(list, live, max);
    var list' := Renamed(list, live, max);
    forall i, j | 0 <= i < |list'| && 0 <= j < |list'| && list'[i] == list'[j]
      ensures i == j
    {
      assert list[i] in list && list[j] in list;
      MovedInjective(live, max, list[i], list[j]);
    }
    forall k | 0 <= k < |list'|
      ensures list'[k] in Below(|live|) + {max}
    {
      assert list[k] in list;
      MovedInjective(live, max, list[k], list[k]);
    }
  }

  /** `new_location` and `empty_locations`. */
  method NewLocations(locationToTag: NaturalMap<nat>, max: nat) returns (newLocation: seq<nat>, empty: set<nat>)
    requires locationToTag.Valid()
    ensures |newLocation| == max + 1
    ensures forall v :: v in empty <==> Dangling(locationToTag.Content().Keys, max, v)
    ensures forall v :: 0 <= v <= max && v !in empty ==> newLocation[v] == Moved(locationToTag.Content().Keys, max, v)
    ensures forall v: nat :: v in empty ==> v <= max && newLocation[v] > max
  {
    newLocation, empty := [], {};
    ghost var live := locationToTag.Content().Keys;
    var counter := 0;
    for n := 0 to max
      invariant |newLocation| == n && counter == Rank(live, n)
      invariant forall v: nat :: v in empty <==> v < n && v !in live
      invariant forall v :: 0 <= v < n ==> newLocation[v] == if v in live then Rank(live, v) else max + 1
    {
      if locationToTag.Contains(n) {
        newLocation, counter := newLocation + [counter], counter + 1;
      } else {
        newLocation, empty := newLocation + [max + 1], empty + {n};
      }
    }
    newLocation := newLocation + [max];
  }

  /** The live lists and vectors before `n` have been renamed and moved. */
  ghost predicate PrefixMoved<Vec>(graph0: Graph, data0: seq<Vec>, live: set<nat>, max: nat, n: nat, graph: Graph,
                                   data: seq<Vec>)
    requires |graph| == |graph0| == |data| == |data0| == max + 1
  {
    forall u {:trigger graph0[u]} :: 0 <= u < n && u in live && Rank(live, u) <= max && u <= max ==>
      graph[Rank(live, u)] == Renamed(graph0[u], live, max) && data[Rank(live, u)] == data0[u]
  }

  /** What has been done when the pass has come to location `n`: the live lists before it have been
      renamed and moved, no list is left between where they went and `n`, and nothing from `n` on has
      been touched. */
  ghost predicate MovedUpTo<Vec>(graph0: Graph, data0: seq<Vec>, live: set<nat>, max: nat, n: nat, graph: Graph,
                                 data: seq<Vec>) {
    && |graph| == |graph0| == |data| == |data0| == max + 1 && n <= max
    && PrefixMoved(graph0, data0, live, max, n, graph, data)
    && (forall i {:trigger graph[i]} :: Rank(live, n) <= i < n ==> graph[i] == [])
    && (forall i {:trigger graph[i]} {:trigger data[i]} :: n <= i <= max ==>
         graph[i] == graph0[i] && data[i] == data0[i])
  }

  /** One step of the pass, as array assignments that overwrite nothing still needed. */
  lemma MoveStep<Vec>(graph0: Graph, data0: seq<Vec>, live: set<nat>, max: nat, n: nat, graph: Graph, data: seq<Vec>)
    requires MovedUpTo(graph0, data0, live, max, n, graph, data) && n < max && n in live
    ensures MovedUpTo(graph0, data0, live, max, n + 1,
      graph[n := []][Rank(live, n) := Renamed(graph0[n], live, max)], data[Rank(live, n) := data0[n]])
  {
    hide Renamed;
    RanksBelow(live, n);
    var r := Rank(live, n);
    var graph', data' := graph[n := []][r := Renamed(graph0[n], live, max)], data[r := data0[n]];
    assert graph[n] == graph0[n] && Rank(live, n + 1) == r + 1;
    forall u {:trigger graph0[u]} | 0 <= u < n + 1 && u in live && Rank(live, u) <= max
      ensures graph'[Rank(live, u)] == Renamed(graph0[u], live, max) && data'[Rank(live, u)] == data0[u]
    {
      if u < n {
        assert graph[Rank(live, u)] == Renamed(graph0[u], live, max) && Rank(live, u) < r;
      }
    }
    forall i | r + 1 <= i < n + 1
      ensures graph'[i] == []
    {
      assert i < n ==> graph[i] == [];
    }
    forall i | n + 1 <= i <= max
      ensures graph'[i] == graph0[i] && data'[i] == data0[i]
    {
      assert graph[i] == graph0[i] && data[i] == data0[i];
    }
    assert PrefixMoved(graph0, data0, live, max, n + 1, graph', data');
    assert MovedUpTo(graph0, data0, live, max, n + 1, graph', data');
  }

  lemma PrefixSkips<Vec>(graph0: Graph, data0: seq<Vec>, live: set<nat>, max: nat, n: nat, graph: Graph, data: seq<Vec>)
    requires |graph| == |graph0| == |data| == |data0| == max + 1 && n < max && n !in live
    requires PrefixMoved(graph0, data0, live, max, n, graph, data)
    ensures PrefixMoved(graph0, data0, live, max, n + 1, graph[n := []], data)
  {
    hide Renamed;
    forall u {:trigger graph0[u]} | 0 <= u < n + 1 && u in live && Rank(live, u) <= max && u <= max
      ensures graph[n := []][Rank(live, u)] == Renamed(graph0[u], live, max) && data[Rank(live, u)] == data0[u]
    {
      assert u < n && Rank(live, u) < n;
      assert graph[Rank(live, u)] == Renamed(graph0[u], live, max);
    }
  }

  lemma SkipStep<Vec>(graph0: Graph, data0: seq<Vec>, live: set<nat>, max: nat, n: nat, graph: Graph, data: seq<Vec>)
    requires MovedUpTo(graph0, data0, live, max, n, graph, data) && n < max && n !in live
    ensures MovedUpTo(graph0, data0, live, max, n + 1, graph[n := []], data)
  {
    hide Renamed, PrefixMoved;
    var r, graph' := Rank(live, n), graph[n := []];
    assert Rank(live, n + 1) == r;
    PrefixSkips(graph0, data0, live, max, n, graph, data);
    forall i | r <= i < n + 1
      ensures graph'[i] == []
    {
      assert i < n ==> graph[i] == [];
    }
    forall i | n + 1 <= i <= max
      ensures graph'[i] == graph0[i] && data[i] == data0[i]
    {
      assert graph[i] == graph0[i] && data[i] == data0[i];
    }
  }

  /** Rename the edges of the list at `old` and move it, with the vector, to its new location. */
  method MoveOne<Vec>(graph: array<seq<nat>>, data: array<Vec>, from: nat, target: nat, list: seq<nat>)
    requires (data as object) != (graph as object) && target <= from < graph.Length == data.Length
    requires target != from ==> graph[target] == []
    modifies graph, data
    ensures graph[..] == old(graph[..])[from := []][target := list]
    ensures data[..] == old(data[..])[target := old(data[from])]
  {
    graph[from] := list;
    if target != from {
      graph[target], graph[from] := graph[from], graph[target];
      data[target] := data[from];
    }
  }

  method MoveLists<Vec>(graph: array<seq<nat>>, data: array<Vec>, ghost live: set<nat>, max: nat, newLocation: seq<nat>,
                        empty: set<nat>)
    requires (data as object) != (graph as object) && graph.Length == data.Length == |newLocation| == max + 1
    requires forall v :: v in empty <==> Dangling(live, max, v)
    requires forall v :: 0 <= v <= max && v !in empty ==> newLocation[v] == Moved(live, max, v)
    requires forall u {:trigger graph[u]} :: (u in live && u < max) || u == max ==> forall v :: v in graph[u] ==>
      v <= max
    modifies graph, data
    ensures MovedUpTo(old(graph[..]), old(data[..]), live, max, max, graph[..max] + [old(graph[max])], data[..])
    ensures graph[max] == Renamed(old(graph[max]), live, max)
  {
    ghost var graph0, data0 := graph[..], data[..];
    for n := 0 to max
      invariant MovedUpTo(graph0, data0, live, max, n, graph[..], data[..])
    {
      if n !in empty {
        MoveStep(graph0, data0, live, max, n, graph[..], data[..]);
        assert graph[..][n] == graph0[n] && data[..][n] == data0[n];
        RankGrows(live, 0, n);
        assert Rank(live, n) < n ==> graph[..][Rank(live, n)] == [];
        var list := RenameEdges(graph[n], newLocation, empty, live, max);
        MoveOne(graph, data, n, newLocation[n], list);
      } else {
        ghost var g := graph[..];
        SkipStep(graph0, data0, live, max, n, g, data[..]);
        graph[n] := [];
        assert graph[..] == g[n := []];
      }
    }
    assert graph[..][max] == graph0[max];
    var list := RenameEdges(graph[max], newLocation, empty, live, max);
    assert graph[..] == graph[..max] + [graph0[max]];
    graph[max] := list;
  }

  ghost predicate MovedVectors<Vec>(vecs: seq<Vec>, live: set<nat>, max: nat, vecs': seq<Vec>) {
    && |vecs| == |vecs'| == max + 1
    && forall u {:trigger Moved(live, max, u)} :: u in live + {max} && u <= max ==>
         Moved(live, max, u) <= max && vecs'[Moved(live, max, u)] == vecs[u]
  }

  lemma AllMoved<Vec>(graph0: Graph, data0: seq<Vec>, live: set<nat>, max: nat, graph: Graph, data: seq<Vec>)
    requires live <= Below(max) && |graph| == |graph0| == max + 1
    requires MovedUpTo(graph0, data0, live, max, max, graph[..max] + [graph0[max]], data)
    requires graph[max] == Renamed(graph0[max], live, max)
    ensures Compacted(graph0, live, max, graph) && MovedVectors(data0, live, max, data)
  {
    RankCounts(live, max);
    assert live * Below(max) == live;
    SubsetSize(live, Below(max));
    var g := graph[..max] + [graph0[max]];
    forall u | u in live + {max}
      ensures Moved(live, max, u) <= max && data[Moved(live, max, u)] == data0[u]
      ensures graph[Moved(live, max, u)] == Renamed(graph0[u], live, max)
    {
      MovedInjective(live, max, u, u);
      if u < max {
        assert graph[Rank(live, u)] == g[Rank(live, u)] == Renamed(graph0[u], live, max);
      } else {
        assert g[max] == graph0[max] && data[max] == data0[max];
      }
    }
    forall i {:trigger graph[i]} | |live| <= i < max
      ensures graph[i] == []
    {
      assert g[i] == graph[i];
    }
  }

  // The tag maps.

  ghost function MovedTags(tags: map<Tag, nat>, live: set<nat>, max: nat): map<Tag, nat> {
    map t | t in tags :: Moved(live, max, tags[t])
  }

  ghost predicate Injective(tags: map<Tag, nat>) {
    forall t, t' :: t in tags && t' in tags && tags[t] == tags[t'] ==> t == t'
  }

  /** The loop over the old locations. */
  method MoveTags(locationToTag: NaturalMap<Tag>, newLocation: seq<nat>, ghost tags0: map<Tag, nat>, ghost max: nat)
      returns (tags: map<Tag, nat>)
    requires locationToTag.Valid() && Inverse(locationToTag.Content(), tags0)
    requires forall v :: v in locationToTag.Content() ==>
      v < max && v < |newLocation| && newLocation[v] == Moved(locationToTag.Content().Keys, max, v)
    ensures tags == MovedTags(tags0, locationToTag.Content().Keys, max)
  {
    tags := map[];
    ghost var content, live := locationToTag.Content(), locationToTag.Content().Keys;
    InversePairs(content, tags0);
    var pos := locationToTag.FindFirst();
    while pos.At?
      invariant locationToTag.Proper(pos)
      invariant forall t :: t in tags <==> t in tags0 && (pos.At? ==> tags0[t] < pos.key)
      invariant forall t :: t in tags ==> tags[t] == Moved(live, max, tags0[t])
      decreases if pos.At? then |locationToTag.bits| - pos.key else -1
    {
      var tag := locationToTag.Get(pos);
      assert content[pos.key] == tag && tags0[tag] == pos.key;
      tags := tags[tag := newLocation[pos.key]];
      ghost var key := pos.key;
      pos := locationToTag.FindNext(pos);
      forall t | t in tags0
        ensures t in tags <==> (pos.At? ==> tags0[t] < pos.key)
      {
        assert content[tags0[t]] == t && tags0[t] in locationToTag.Content();
        assert tags0[t] > key ==> pos.At? && pos.key <= tags0[t];
      }
    }
  }

  /** The loop over the new tag map, in whatever order it yields the tags. */
  method SetLocations(locationToTag: NaturalMap<Tag>, tags: map<Tag, nat>)
    requires Injective(tags)
    modifies locationToTag
    ensures locationToTag.Valid() && Inverse(locationToTag.Content(), tags)
  {
    locationToTag.Clear();
    var rest := tags.Keys;
    while rest != {}
      invariant locationToTag.Valid() && rest <= tags.Keys
      invariant forall t, v :: Maps(locationToTag.Content(), v, t) <==> Maps(tags, t, v) && t !in rest
    {
      var t :| t in rest;
      ghost var content := locationToTag.Content();
      locationToTag.Set(tags[t], t, t);
      rest := rest - {t};
      SetOne(content, tags, rest, t);
    }
  }

  lemma SetOne(content: map<nat, Tag>, tags: map<Tag, nat>, rest: set<Tag>, t: Tag)
    requires Injective(tags) && t in tags && t !in rest
    requires forall t', v :: Maps(content, v, t') <==> Maps(tags, t', v) && t' !in rest + {t}
    ensures forall t', v :: Maps(content[tags[t] := t], v, t') <==> Maps(tags, t', v) && t' !in rest
  {
    forall t', v
      ensures Maps(content[tags[t] := t], v, t') <==> Maps(tags, t', v) && t' !in rest
    {
      assert Maps(content, v, t') <==> Maps(tags, t', v) && t' !in rest + {t};
    }
  }

  /** Compaction keeps each slot in exactly one class, and the live ones come first. */
  lemma CompactedSlots(s: Slots, max: nat, s': Slots)
    requires Tracked(s, max) && s.pending == {} && s.releasing == {}
    requires s'.tags == MovedTags(s.tags, s.live.Keys, max) && Inverse(s'.live, s'.tags)
    requires s' == s.(live := s'.live, tags := s'.tags, empty := Interval(s.nd, max), compacted := true)
    ensures Tracked(s', max) && s'.live.Keys == Below(s.nd)
  {
    OccupiedSize(s, max);
    InverseSize(s'.live, s'.tags);
    assert s'.tags.Keys == s.tags.Keys;
    TagSlots(s, max);
    TagOf(s'.live, s'.tags);
    forall v | v in s'.live
      ensures v < s.nd
    {
      MovedInjective(s.live.Keys, max, s.tags[s'.live[v]], max);
    }
    if v :| v in Below(s.nd) && v !in s'.live.Keys {
      ProperSubsetSize(s'.live.Keys, Below(s.nd), v);
    }
    forall v: nat
      ensures Classes(s', v) == if v < max then 1 else 0
    {
    }
  }

  lemma MovedTagsInjective(s: Slots, max: nat)
    requires Core(s, max)
    ensures Injective(MovedTags(s.tags, s.live.Keys, max))
  {
    TagSlots(s, max);
    var tags := MovedTags(s.tags, s.live.Keys, max);
    forall t, t' | t in tags && t' in tags && tags[t] == tags[t']
      ensures t == t'
    {
      MovedInjective(s.live.Keys, max, s.tags[t], s.tags[t']);
    }
  }
}
