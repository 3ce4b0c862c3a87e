/** The dynamic index: insertion, lazy deletion, consolidation and compaction of the in-memory graph
    index. Every critical section is a method of its own, so that their calls in any order are the
    interleavings of the threads. */
module DynamicIndex {
  import opened BeamSearch
  import opened Compaction
  import opened GraphLists
  import opened NaturalNumbers
  import opened NeighborPool
  import opened Prune
  import opened Sets
  import opened SlotState

  /** The outcomes of `release_locations`; `AlreadyEmpty` and `WrongCount` stand for its exceptions. */
  datatype ReleaseResult = Released(nd: nat) | AlreadyEmpty(slot: nat) | WrongCount

  /** What the count check of `consolidate_deletes` can find. */
  datatype CountCheck = CountsAgree | SlotsMissing | InconsistentCount | TagsMissing

  /** The report of `consolidate_deletes`; `WrongCounts` stands for its exceptions. */
  datatype Report = WrongCounts | CountError | LockFail
    | Success(active: nat, maxPoints: nat, empty: nat, released: nat, pending: nat)

  /** The outcomes of `compact_data`; `DeletesPending` stands for its exception. */
  datatype CompactResult = DoneCompacting | AlreadyCompact | DeletesPending

  /** What users ask of the index, and what they are told. */
  datatype IndexOp<Vec> =
    | InsertOp(tag: Tag, point: Vec)
    | DeleteOp(tag: Tag)
    | ConsolidateOp(alpha: real, range: nat, maxc: nat)
    | CompactOp
    | GetOp(tag: Tag)

  datatype Answer<Vec> = Ok | Refused | Reported(report: Report) | Compacting(result: CompactResult) | Found(point: Vec)

  /** A map from tags to vectors in which deleted points hold room until they are consolidated. */
  datatype Bounded<Vec> = Bounded(points: map<Tag, Vec>, held: nat, compact: bool)

  ghost predicate BoundedStep<Vec>(b: Bounded<Vec>, op: IndexOp<Vec>, a: Answer<Vec>, b': Bounded<Vec>, room: nat) {
    match op
    case InsertOp(t, p) =>
      if t in b.points || |b.points| + b.held == room then a == Refused && b' == b
      else a == Ok && b' == b.(points := b.points[t := p])
    case DeleteOp(t) =>
      if t in b.points then a == Ok && b' == Bounded(b.points - {t}, b.held + 1, false)
      else a == Refused && b' == b.(compact := false)
    case ConsolidateOp(_, _, _) =>
      && a.Reported? && a.report.Success? && a.report.maxPoints == room
      && a.report.active == |b.points| && a.report.empty == room - |b.points|
      && a.report.released == b.held && a.report.pending == 0
      && b' == b.(held := 0)
    case CompactOp =>
      && a == Compacting(if b.compact then AlreadyCompact else if b.held > 0 then DeletesPending else DoneCompacting)
      && b' == b.(compact := b.held == 0)
    case GetOp(t) => a == (if t in b.points then Found(b.points[t]) else Refused) && b' == b
  }

  ghost predicate BoundedRun<Vec>(states: seq<Bounded<Vec>>, ops: seq<IndexOp<Vec>>, answers: seq<Answer<Vec>>,
                                  room: nat) {
    && |states| == |ops| + 1 && |answers| == |ops|
    && forall i {:trigger answers[i]} :: 0 <= i < |ops| ==>
         BoundedStep(states[i], ops[i], answers[i], states[i + 1], room)
  }

  lemma EmptyRun<Vec>(b: Bounded<Vec>, room: nat)
    ensures BoundedRun([b], [], [], room)
  {
  }

  lemma ExtendBounded<Vec>(states: seq<Bounded<Vec>>, ops: seq<IndexOp<Vec>>, answers: seq<Answer<Vec>>, room: nat,
                           op: IndexOp<Vec>, a: Answer<Vec>, b: Bounded<Vec>)
    requires BoundedRun(states, ops, answers, room) && BoundedStep(states[|ops|], op, a, b, room)
    ensures BoundedRun(states + [b], ops + [op], answers + [a], room)
  {
  }

  /** The ranges that consolidations are called with stay within `bound`. */
  ghost predicate RangesWithin<Vec>(ops: seq<IndexOp<Vec>>, bound: nat) {
    forall i {:trigger ops[i]} :: 0 <= i < |ops| && ops[i].ConsolidateOp? ==> ops[i].range <= bound
  }

  ghost predicate Consolidates<Vec>(ops: seq<IndexOp<Vec>>, i: nat, j: nat) {
    exists k :: i <= k < j && k < |ops| && ops[k].ConsolidateOp?
  }

  /** Room once taken is only given back by a consolidation: deleted points hold theirs until then. */
  ghost predicate RoomHeld<Vec>(states: seq<Bounded<Vec>>, ops: seq<IndexOp<Vec>>) {
    && |states| == |ops| + 1
    && forall i, j {:trigger Consolidates(ops, i, j)} :: 0 <= i <= j <= |ops| && !Consolidates(ops, i, j) ==>
         |states[i].points| + states[i].held <= |states[j].points| + states[j].held
  }

  lemma {:induction false} RoomIsHeld<Vec>(states: seq<Bounded<Vec>>, ops: seq<IndexOp<Vec>>, answers: seq<Answer<Vec>>,
                                           room: nat, i: nat, j: nat)
    requires BoundedRun(states, ops, answers, room) && i <= j <= |ops|
    requires !Consolidates(ops, i, j)
    ensures |states[i].points| + states[i].held <= |states[j].points| + states[j].held
  {
    if i < j {
      assert !ops[j - 1].ConsolidateOp?;
      RoomIsHeld(states, ops, answers, room, i, j - 1);
      assert BoundedStep(states[j - 1], ops[j - 1], answers[j - 1], states[j], room);
      match ops[j - 1]
      case InsertOp(t, p) =>
        assert states[j - 1].points[t := p].Keys == states[j - 1].points.Keys + {t};
      case DeleteOp(t) =>
        assert (states[j - 1].points - {t}).Keys == states[j - 1].points.Keys - {t};
      case _ =>
    }
  }

  lemma RunHoldsRoom<Vec>(states: seq<Bounded<Vec>>, ops: seq<IndexOp<Vec>>, answers: seq<Answer<Vec>>, room: nat)
    requires BoundedRun(states, ops, answers, room)
    ensures RoomHeld(states, ops)
  {
    forall i: nat, j: nat | i <= j <= |ops| && !Consolidates(ops, i, j)
      ensures |states[i].points| + states[i].held <= |states[j].points| + states[j].held
    {
      RoomIsHeld(states, ops, answers, room, i, j);
    }
  }

  /** Requests for critical sections. */
  datatype Request = ReserveFor(tag: Tag) | DeleteTag(tag: Tag) | StartConsolidation | ReleaseDeleted

  /** The request leads to an event of its kind; a release may not be due. */
  ghost predicate EventFor(request: Request, events: seq<Event>) {
    && |events| <= 1 && (events == [] ==> request == ReleaseDeleted)
    && (events != [] ==>
          match request
          case ReserveFor(t) => events[0].Reserve? && events[0].tag == t
          case DeleteTag(t) => events[0].Delete? && events[0].tag == t
          case StartConsolidation => events[0].Start?
          case ReleaseDeleted => events[0] == Event.Release)
  }

  ghost function Flatten<T>(parts: seq<seq<T>>): seq<T> {
    if parts == [] then [] else Flatten(parts[..|parts| - 1]) + parts[|parts| - 1]
  }

  lemma FlattenMore<T>(parts: seq<seq<T>>, more: seq<T>)
    ensures Flatten(parts + [more]) == Flatten(parts) + more
  {
    assert (parts + [more])[..|parts|] == parts;
  }

  ghost function PointsOf<Vec>(tags: map<Tag, nat>, vecs: seq<Vec>): map<Tag, Vec> {
    map t | t in tags && tags[t] < |vecs| :: vecs[tags[t]]
  }

  lemma PointStored<Vec>(tags: map<Tag, nat>, vecs: seq<Vec>, tag: Tag, slot: nat, point: Vec)
    requires slot < |vecs| && tag !in tags && forall t :: t in tags ==> tags[t] != slot
    ensures PointsOf(tags[tag := slot], vecs[slot := point]) == PointsOf(tags, vecs)[tag := point]
  {
  }

  lemma NodesShrink(s: Slots, s': Slots, max: nat)
    requires Tracked(s, max) && Step(s, Event.Release, s', max)
    ensures Tracked(s', max) && Occupied(s') + {max} == Occupied(s) + {max} - s.releasing
  {
    ReleaseKeeps(s, max, s');
    OneClass(s, max);
  }

  lemma PointDropped<Vec>(tags: map<Tag, nat>, vecs: seq<Vec>, tag: Tag)
    ensures PointsOf(tags - {tag}, vecs) == PointsOf(tags, vecs) - {tag}
  {
  }

  lemma PointsSize<Vec>(s: Slots, max: nat, vecs: seq<Vec>)
    requires Core(s, max) && |vecs| == max + 1
    ensures PointsOf(s.tags, vecs).Keys == s.tags.Keys && |PointsOf(s.tags, vecs)| == |s.live|
  {
    TagSlots(s, max);
    OccupiedSize(s, max);
    assert PointsOf(s.tags, vecs).Keys == s.tags.Keys;
  }

  lemma InsertBounded<Vec>(s: Slots, tag: Tag, slot: int, s': Slots, max: nat, points: map<Tag, Vec>, point: Vec)
    requires Sound(s, max) && s.releasing == {} && Step(s, Event.Reserve(tag, slot), s', max)
    requires points.Keys == s.tags.Keys && |points| == |s.live|
    ensures BoundedStep(Bounded(points, |s.pending|, s.compacted), InsertOp(tag, point),
      if slot == -1 then Refused else Ok,
      Bounded(if slot == -1 then points else points[tag := point], |s'.pending|, s'.compacted), max)
  {
    OccupiedSize(s, max);
    assert tag in points <==> tag in s.tags;
  }

  lemma DeleteBounded<Vec>(s: Slots, tag: Tag, found: bool, s': Slots, max: nat, points: map<Tag, Vec>)
    requires Tracked(s, max) && Step(s, Delete(tag, found), s', max)
    requires points.Keys == s.tags.Keys
    ensures BoundedStep(Bounded(points, |s.pending|, s.compacted), DeleteOp(tag), if found then Ok else Refused,
      Bounded(if found then points - {tag} else points, |s'.pending|, s'.compacted), max)
  {
    assert tag in points <==> tag in s.tags;
    TagSlots(s, max);
    if found {
      DropSize(s.live, s.pending, s.tags[tag]);
    }
  }

  lemma DeleteServed<Vec>(s: Slots, tag: Tag, found: bool, s': Slots, max: nat, vecs: seq<Vec>)
    requires Tracked(s, max) && Step(s, Delete(tag, found), s', max) && |vecs| == max + 1
    ensures Tracked(s', max) && Occupied(s') == Occupied(s)
    ensures BoundedStep(Bounded(PointsOf(s.tags, vecs), |s.pending|, s.compacted), DeleteOp(tag),
      if found then Ok else Refused, Bounded(PointsOf(s'.tags, vecs), |s'.pending|, s'.compacted), max)
  {
    hide Core, BoundedStep;
    PointsSize(s, max, vecs);
    DeleteKeeps(s, tag, max, s');
    PointDropped(s.tags, vecs, tag);
    DeleteBounded(s, tag, found, s', max, PointsOf(s.tags, vecs));
  }

  lemma NodesGrow(s: Slots, t: Tag, slot: int, s': Slots, max: nat)
    requires Sound(s, max) && Step(s, Event.Reserve(t, slot), s', max)
    ensures slot == -1 ==> Occupied(s') + {max} == Occupied(s) + {max}
    ensures slot != -1 ==>
      0 <= slot < max && slot !in Occupied(s) + {max} && Occupied(s') + {max} == Occupied(s) + {max} + {slot}
  {
    ReserveOccupies(s, t, slot, s', max);
  }

  lemma NodesInGraph(graph: Graph, nodes: set<nat>)
    requires GraphOk(graph, nodes)
    ensures forall u :: u in nodes ==> u < |graph|
  {
  }

  /** A finished search has reported all entries of its pool. */
  lemma AllReported(info: seq<Neighbor>, ids: set<nat>, pool: seq<Neighbor>, graph: Graph, dist: seq<real>, L: nat,
                    seeds: set<nat>, seen: set<nat>)
    requires BeamSearch.Reported(info, ids, pool, graph, dist, seeds, seen, {})
    requires SearchDone(pool, seen, graph, dist, L)
    ensures Distinct(info) && Measured(info, dist) && forall v :: HasId(info, v) <==> v in ids
    ensures forall v :: HasId(pool, v) ==> HasId(info, v)
    ensures Traced(seeds, NodesOf(info), graph, seen)
    ensures forall v :: v in NodesOf(info) ==> Explored(v, graph, seen)
  {
    hide Traced, Explored;
    assert forall i :: 0 <= i < |pool| ==> pool[i].id in Cleared(pool);
    assert NodesOf(info) == ids by {
      NodesAreIds(info);
    }
    assert ids + {} == ids;
  }

  lemma NodesAreIds(s: seq<Neighbor>)
    ensures forall v :: v in NodesOf(s) <==> HasId(s, v)
  {
    forall v
      ensures v in NodesOf(s) <==> HasId(s, v)
    {
      if HasId(s, v) {
        var i :| 0 <= i < |s| && s[i].id == v;
        assert s[i] in s;
      }
      if e: Neighbor :| e in s && e.id == v {
        var i :| 0 <= i < |s| && s[i] == e;
      }
    }
  }

  lemma IdsSeen(info: seq<Neighbor>, ids: set<nat>, pool: seq<Neighbor>, graph: Graph, dist: seq<real>,
                seeds: set<nat>, seen: set<nat>)
    requires BeamSearch.Reported(info, ids, pool, graph, dist, seeds, seen, {})
    ensures ids <= seen
  {
  }

  lemma PoolFound(graph: Graph, n: nat, rule: Rule, L: nat, start: nat, gone: set<nat>, pool: seq<Neighbor>,
                  best: seq<Neighbor>, seen: set<nat>)
    requires Sorted(pool) && Distinct(pool) && HasId(pool, start)
    requires forall k :: 0 <= k < |pool| ==> pool[k].distance == rule.d(pool[k].id, n) && pool[k].id !in {n} + gone
    requires SearchDone(best, seen, graph, DistancesTo(rule.d, n, |graph|), L)
    requires forall v :: HasId(best, v) && v !in {n} + gone ==> HasId(pool, v)
    requires start in seen && Traced({start}, NodesOf(pool) + {n} + gone, graph, seen)
    requires forall v :: v in NodesOf(pool) ==> Explored(v, graph, seen)
    ensures SearchPool(graph, n, rule, L, start, gone, pool) && pool != []
  {
    hide SearchDone, Sorted, Distinct, Traced, Explored;
  }

  /** What is dropped from the locations reported is `n` or deleted. */
  lemma TracedPool(info: seq<Neighbor>, pool: seq<Neighbor>, seeds: set<nat>, start: nat, graph: Graph,
                   seen: set<nat>, n: nat, gone: set<nat>)
    requires Traced(seeds, NodesOf(info), graph, seen) && seeds <= {start}
    requires forall v :: HasId(info, v) && v !in {n} + gone ==> HasId(pool, v)
    requires forall v :: HasId(pool, v) ==> HasId(info, v)
    ensures Traced({start}, NodesOf(pool) + {n} + gone, graph, seen) && NodesOf(pool) <= NodesOf(info)
  {
    NodesAreIds(info);
    NodesAreIds(pool);
    hide HasId;
    TracedBy(seeds, NodesOf(info), graph, seen, NodesOf(pool) + {n} + gone);
  }

  lemma MeasuredFor(info: seq<Neighbor>, unsorted: seq<Neighbor>, pool: seq<Neighbor>, d: Distance, n: nat, size: nat,
                    drop: set<nat>)
    requires Measured(info, DistancesTo(d, n, size)) && multiset(pool) == multiset(unsorted)
    requires forall k :: 0 <= k < |unsorted| ==> unsorted[k] in info && unsorted[k].id !in drop
    ensures forall k :: 0 <= k < |pool| ==> pool[k].distance == d(pool[k].id, n) && pool[k].id !in drop
  {
    forall k | 0 <= k < |pool|
      ensures pool[k].distance == d(pool[k].id, n) && pool[k].id !in drop
    {
      assert pool[k] in multiset(unsorted);
      var j :| 0 <= j < |unsorted| && unsorted[j] == pool[k];
      assert unsorted[j] in info;
    }
  }

  lemma NoSlots(max: nat)
    ensures Dense(Slots({}, map[], map[], {}, {}, 0, false, true), max)
  {
  }

  lemma NoEdges(graph: Graph, nodes: set<nat>)
    requires forall u :: u in nodes ==> u < |graph|
    requires forall u {:trigger graph[u]} :: 0 <= u < |graph| ==> graph[u] == []
    ensures GraphOk(graph, nodes) && forall b :: DegreesWithin(graph, nodes, b)
  {
  }

  lemma LinkedAfter(graph: Graph, n: nat, list: seq<nat>, rule: Rule, graph': Graph)
    requires n < |graph| == |graph'|
    requires forall u :: 0 <= u < |graph| ==>
      var before := graph[n := list][u];
      if u in list then LinkedBack(before, n, u, rule, graph'[u]) else graph'[u] == before
    ensures Linked(graph, n, rule, graph') && graph'[n] == list
  {
    hide PrunedTo, LinkPool;
    assert graph[n := list][n] == list;
  }

  /** Among the first `n` lists, those of the nodes that stay have been repaired; nothing else changed. */
  ghost predicate RepairedBelow(before: Graph, nodes: set<nat>, gone: set<nat>, rule: Rule, n: nat, graph: Graph) {
    && |graph| == |before|
    && forall u :: 0 <= u < |graph| ==>
         if u < n && u in nodes && u !in gone then Repaired(before, gone, u, rule, graph[u]) else graph[u] == before[u]
  }

  lemma NothingRepaired(before: Graph, nodes: set<nat>, gone: set<nat>, rule: Rule)
    ensures RepairedBelow(before, nodes, gone, rule, 0, before)
  {
  }

  lemma RepairedAbove(before: Graph, nodes: set<nat>, gone: set<nat>, rule: Rule, n: nat, graph: Graph)
    requires RepairedBelow(before, nodes, gone, rule, n, graph)
    ensures |graph| == |before| && forall u :: 0 <= u < |graph| && (u >= n || u in gone) ==> graph[u] == before[u]
  {
  }

  lemma OneMoreRepaired(before: Graph, nodes: set<nat>, gone: set<nat>, rule: Rule, n: nat, graph: Graph, graph': Graph)
    requires RepairedBelow(before, nodes, gone, rule, n, graph) && n < |graph'| == |graph| == |before| && n in nodes
    requires n !in gone
    requires Repaired(before, gone, n, rule, graph'[n]) && graph' == graph[n := graph'[n]]
    ensures RepairedBelow(before, nodes, gone, rule, n + 1, graph')
  {
    hide Repaired;
  }

  lemma NoneRepaired(before: Graph, nodes: set<nat>, gone: set<nat>, rule: Rule, n: nat, graph: Graph)
    requires RepairedBelow(before, nodes, gone, rule, n, graph) && (n in gone || n !in nodes)
    ensures RepairedBelow(before, nodes, gone, rule, n + 1, graph)
  {
    hide Repaired;
  }

  /** Distances between locations. */
  function DistanceOf<Vec>(vecs: seq<Vec>, distance: (Vec, Vec) -> real): Distance {
    (i: nat, j: nat) => if i < |vecs| && j < |vecs| then distance(vecs[i], vecs[j]) else 0.0
  }

  class Index<Vec(0)> {
    const maxPoints: nat
    const range: nat
    const queueSize: nat
    const maxCandidates: nat
    const alpha: real
    const saturate: bool
    const metric: Metric
    const distance: (Vec, Vec) -> real
    const data: array<Vec>
    const graph: array<seq<nat>>
    const emptySlots: NaturalSet
    const locationToTag: NaturalMap<Tag>
    var nd: nat
    var tagToLocation: map<Tag, nat>
    var deleteSet: set<nat>
    var oldDeleteSet: set<nat>
    var consolidating: bool
    var dataCompacted: bool

    /** An index without points: only the frozen start, at the last location. */
    constructor (maxPoints0: nat, range: nat, queueSize: nat, maxCandidates: nat, alpha: real, saturate: bool,
                 metric: Metric, distance: (Vec, Vec) -> real, frozen: Vec)
      requires queueSize >= 1
      ensures Valid() && Dense(State(), maxPoints) && Points() == map[] && nd == 0 && !consolidating && dataCompacted
      ensures deleteSet == {} && tagToLocation == map[] && emptySlots.IsEmpty()
      ensures maxPoints == (if maxPoints0 == 0 then 1 else maxPoints0) && this.queueSize == queueSize
      ensures this.range == range
      ensures this.maxCandidates == maxCandidates && this.alpha == alpha && this.saturate == saturate
      ensures this.metric == metric && this.distance == distance && data[..][maxPoints] == frozen
      ensures forall b :: DegreesWithin(graph[..], Nodes(), b)
      ensures fresh(data) && fresh(graph) && fresh(emptySlots) && fresh(locationToTag)
    {
      hide Core, Dense, Tracked, GraphOk, DegreesWithin, Inverse, Classes;
      var max := if maxPoints0 == 0 then 1 else maxPoints0;
      var vecs := new Vec[max + 1](_ => frozen);
      var lists := new seq<nat>[max + 1](_ => []);
      var slots := new NaturalSet();
      var tags := new NaturalMap<Tag>();
      NoSlots(max);
      NoEdges(lists[..], {max});
      maxPoints, data, graph, emptySlots, locationToTag := max, vecs, lists, slots, tags;
      this.range, this.queueSize, this.maxCandidates, this.alpha := range, queueSize, maxCandidates, alpha;
      this.saturate, this.metric, this.distance := saturate, metric, distance;
      nd, tagToLocation, deleteSet, oldDeleteSet := 0, map[], {}, {};
      consolidating, dataCompacted := false, true;
      new;
      assert State() == Slots({}, map[], map[], {}, {}, 0, false, true);
      assert Nodes() == {maxPoints};
    }

    ghost function State(): Slots
      requires locationToTag.Valid()
      reads this, emptySlots, locationToTag
    {
      Slots(emptySlots.Elems(), locationToTag.Content(), tagToLocation, deleteSet, oldDeleteSet, nd, consolidating,
        dataCompacted)
    }

    ghost predicate ValidSlots()
      reads this, emptySlots, locationToTag
    {
      emptySlots.Valid() && locationToTag.Valid() && Sound(State(), maxPoints)
    }

    /** Deletion has been enabled. */
    ghost predicate Enabled()
      reads this, emptySlots, locationToTag
    {
      ValidSlots() && Tracked(State(), maxPoints)
    }

    /** The locations with a list: every slot that is not empty, and the frozen start. */
    ghost function Nodes(): set<nat>
      requires locationToTag.Valid()
      reads this, emptySlots, locationToTag
    {
      Occupied(State()) + {maxPoints}
    }

    ghost predicate Valid()
      reads this, emptySlots, locationToTag, data, graph
    {
      && ValidSlots() && data.Length == graph.Length == maxPoints + 1 && queueSize >= 1
      && (data as object) != (graph as object)
      && GraphOk(graph[..], Nodes())
    }

    /** What the index holds for its users: the vector of every tag. */
    ghost function Points(): map<Tag, Vec>
      reads this, data
    {
      PointsOf(tagToLocation, data[..])
    }

    /** The vector of the frozen start. */
    ghost function Frozen(): Vec
      requires data.Length == maxPoints + 1
      reads data
    {
      data[maxPoints]
    }

    lemma EmptySize()
      requires ValidSlots()
      ensures |emptySlots.values| == |emptySlots.Elems()| && locationToTag.size == |locationToTag.Content()|
      ensures |State().empty| + nd == maxPoints <==> Tracked(State(), maxPoints)
      ensures nd <= maxPoints && |locationToTag.Content()| == |tagToLocation|
    {
      emptySlots.Size();
      locationToTag.SizeIs();
      OccupiedSize(State(), maxPoints);
    }

    /** `reserve_location`, or -1 when the index is full. */
    method ReserveLocation() returns (slot: int)
      requires ValidSlots()
      modifies this`nd, this`deleteSet, emptySlots
      ensures emptySlots.Valid() && deleteSet == old(deleteSet)
      ensures slot == -1 <==> old(nd) >= maxPoints
      ensures slot == -1 ==> nd == old(nd) && emptySlots.values == old(emptySlots.values)
      ensures slot != -1 ==>
        && slot >= 0 && CanTake(old(State()), slot) && nd == old(nd) + 1
        && emptySlots.Elems() == old(emptySlots.Elems()) - {slot}
    {
      EmptySize();
      if nd >= maxPoints {
        return -1;
      }
      if dataCompacted && emptySlots.IsEmpty() {
        slot := nd;
      } else {
        CanTakeFree(State(), emptySlots.values[|emptySlots.values| - 1], maxPoints);
        slot := emptySlots.PopAny();
        assert slot !in deleteSet;
        deleteSet := deleteSet - {slot};
      }
      nd := nd + 1;
    }

    /** The first part of `insert_point`, under the tag lock: a slot for the tag, or -1. */
    method Reserve(tag: Tag) returns (slot: int)
      requires ValidSlots()
      modifies this`nd, this`deleteSet, this`tagToLocation, emptySlots, locationToTag
      ensures ValidSlots() && Step(old(State()), Event.Reserve(tag, slot), State(), maxPoints)
      ensures old(Enabled()) ==> Enabled()
    {
      hide Core, Tracked, Dense, CanTake;
      ghost var s := State();
      slot := ReserveLocation();
      if slot == -1 {
        return;
      }
      CanTakeFree(s, slot, maxPoints);
      if tag in tagToLocation {
        ReturnKeeps(s, slot, maxPoints);
        emptySlots.Insert(slot);
        nd := nd - 1;
        slot := -1;
        assert State() == Returned(s);
      } else {
        TakeKeeps(s, tag, slot, maxPoints);
        tagToLocation := tagToLocation[tag := slot];
        locationToTag.Set(slot, tag, tag);
        assert State() == Take(s, tag, slot);
      }
    }

    /** Append the slots from `nd` on to the empty ones. */
    method ListSlots()
      requires nd <= maxPoints
      modifies emptySlots
      ensures emptySlots.values == old(emptySlots.values) + Range(nd, maxPoints)
      ensures emptySlots.Elems() == old(emptySlots.Elems()) + Interval(nd, maxPoints)
      ensures old(emptySlots.Valid() && emptySlots.IsEmpty()) ==> emptySlots.Valid()
    {
      ghost var values := emptySlots.values;
      for slot := nd to maxPoints
        invariant emptySlots.values == values + Range(nd, slot)
        invariant old(emptySlots.Valid() && emptySlots.IsEmpty()) ==> emptySlots.Valid()
      {
        assert values == [] ==> slot !in emptySlots.values;
        emptySlots.Insert(slot);
      }
      RangeMembers(values, nd, maxPoints);
    }

    /** `enable_delete` lists the slots beyond the points as empty. Every slot is then in exactly one
        class if and only if none was listed before. */
    method EnableDelete()
      requires ValidSlots()
      modifies emptySlots
      ensures emptySlots.values == old(emptySlots.values) + if dataCompacted then Range(nd, maxPoints) else []
      ensures emptySlots.Elems() == old(emptySlots.Elems()) + if dataCompacted then Interval(nd, maxPoints) else {}
      ensures Enabled() <==> !dataCompacted || nd == maxPoints || old(emptySlots.IsEmpty())
      ensures Enabled() <==> |emptySlots.values| + nd == maxPoints
    {
      hide Core, Tracked, Dense;
      EmptySize();
      ghost var s, values := State(), emptySlots.values;
      EnableKeeps(s, maxPoints);
      if dataCompacted {
        ListSlots();
        EnabledCounts();
        if nd == maxPoints {
          assert emptySlots.values == values && emptySlots.Elems() == s.empty;
        } else if values == [] {
          assert s.empty == {} && s.empty + Interval(nd, maxPoints) == Interval(nd, maxPoints);
          assert State() == s.(empty := Interval(nd, maxPoints));
        }
      }
    }

    lemma EnabledCounts()
      ensures Enabled() ==> |emptySlots.values| + nd == maxPoints
    {
      if Enabled() {
        EmptySize();
      }
    }

    /** `lazy_delete` of one tag: false when there is no such tag. */
    method LazyDelete(tag: Tag) returns (found: bool)
      requires Enabled()
      modifies this`deleteSet, this`tagToLocation, this`dataCompacted, locationToTag
      ensures Enabled() && Step(old(State()), Delete(tag, found), State(), maxPoints)
    {
      hide Core, Tracked, Dense;
      ghost var s := State();
      dataCompacted := false;
      found := tag in tagToLocation;
      if found {
        var location := tagToLocation[tag];
        deleteSet := deleteSet + {location};
        locationToTag.Erase(location);
        tagToLocation := tagToLocation - {tag};
        assert State() == Drop(s, tag);
      }
      DeleteKeeps(s, tag, maxPoints, State());
    }

    /** The checks at the start of `consolidate_deletes`. */
    method CheckCounts() returns (r: CountCheck)
      ensures r == SlotsMissing <==> |emptySlots.values| + nd != maxPoints
      ensures ValidSlots() ==>
        && (r == SlotsMissing <==> !Enabled())
        && (r == InconsistentCount <==> Enabled() && oldDeleteSet != {})
        && (r == CountsAgree <==> Enabled() && oldDeleteSet == {})
    {
      if ValidSlots() {
        EmptySize();
        CountsAgreeIff(State(), maxPoints);
      }
      if |emptySlots.values| + nd != maxPoints {
        return SlotsMissing;
      }
      if locationToTag.size + |deleteSet| != nd {
        return InconsistentCount;
      }
      r := if locationToTag.size != |tagToLocation| then TagsMissing else CountsAgree;
    }

    /** Take the consolidate lock and the set of points to release, unless another thread has it. */
    method TryStart() returns (ok: bool)
      requires Enabled()
      modifies this`consolidating, this`deleteSet, this`oldDeleteSet
      ensures Enabled() && Step(old(State()), Start(ok), State(), maxPoints)
      ensures Nodes() == old(Nodes())
    {
      ghost var s := State();
      ok := !consolidating;
      if ok {
        consolidating, deleteSet, oldDeleteSet := true, oldDeleteSet, deleteSet;
      }
      StartKeeps(s, ok, maxPoints, State());
    }

    /** `release_locations`. */
    method ReleaseLocations(locations: set<nat>) returns (r: ReleaseResult)
      requires emptySlots.Valid() && |locations| <= nd
      modifies this`nd, emptySlots
      ensures emptySlots.Valid()
      ensures locations !! old(emptySlots.Elems()) && |old(emptySlots.Elems())| + old(nd) == maxPoints ==> r.Released?
      ensures r.Released? ==>
        r.nd == nd == old(nd) - |locations| && emptySlots.Elems() == old(emptySlots.Elems()) + locations
      ensures r.AlreadyEmpty? ==> r.slot in locations && r.slot in old(emptySlots.Elems())
      ensures r.WrongCount? ==> |emptySlots.Elems()| + nd != maxPoints
    {
      hide NoRepeats, NaturalSet.Elems, NaturalSet.Valid;
      var rest := locations;
      ghost var was, done := emptySlots.Elems(), {};
      while rest != {}
        invariant done + rest == locations && done * rest == {} && nd == old(nd) - |done|
        invariant emptySlots.Valid() && emptySlots.Elems() == was + done
        invariant locations !! was ==> |emptySlots.Elems()| == |was| + |done|
      {
        var location :| location in rest;
        if emptySlots.IsInSet(location) {
          return AlreadyEmpty(location);
        }
        SubsetSize(done + {location}, locations);
        emptySlots.Insert(location);
        done, rest, nd := done + {location}, rest - {location}, nd - 1;
      }
      emptySlots.Size();
      r := if |emptySlots.values| + nd != maxPoints then WrongCount else Released(nd);
    }

    /** The last critical section of `consolidate_deletes`. */
    method Release() returns (r: ReleaseResult)
      requires Enabled() && consolidating
      modifies this`nd, this`oldDeleteSet, this`consolidating, emptySlots
      ensures Enabled() && Step(old(State()), Event.Release, State(), maxPoints)
      ensures r == Released(nd)
      ensures Nodes() == old(Nodes()) - old(oldDeleteSet)
    {
      hide Core, Tracked, Dense, Occupied;
      ghost var s := State();
      ReleaseReady(s, maxPoints);
      r := ReleaseLocations(oldDeleteSet);
      oldDeleteSet, consolidating := {}, false;
      NodesShrink(s, State(), maxPoints);
    }

    /** One critical section, chosen by whatever thread comes next. A release is due only from the
        thread that consolidates. */
    method RunSection(request: Request) returns (events: seq<Event>)
      requires Enabled()
      modifies this, emptySlots, locationToTag
      ensures Enabled() && |events| <= 1
      ensures EventFor(request, events) && (events == [] <==> request == ReleaseDeleted && !old(consolidating))
      ensures events == [] ==> State() == old(State())
      ensures |events| == 1 ==> Step(old(State()), events[0], State(), maxPoints)
    {
      match request
      case ReserveFor(tag) =>
        var slot := Reserve(tag);
        events := [Event.Reserve(tag, slot)];
      case DeleteTag(tag) =>
        var found := LazyDelete(tag);
        events := [Delete(tag, found)];
      case StartConsolidation =>
        var ok := TryStart();
        events := [Start(ok)];
      case ReleaseDeleted =>
        events := [];
        if consolidating {
          var _ := Release();
          events := [Event.Release];
        }
    }

    /** Any interleaving of critical sections is a run of the bookkeeping, in which each request has
        its event. */
    method RunSections(requests: seq<Request>)
        returns (events: seq<Event>, ghost parts: seq<seq<Event>>, ghost states: seq<Slots>)
      requires Enabled()
      modifies this, emptySlots, locationToTag
      ensures Enabled() && IsRun(states, events, maxPoints)
      ensures states[0] == old(State()) && states[|events|] == State()
      ensures events == Flatten(parts) && |parts| == |requests|
      ensures forall i :: 0 <= i < |requests| ==> EventFor(requests[i], parts[i])
    {
      hide EventFor;
      events, parts, states := [], [], [State()];
      for i := 0 to |requests|
        invariant Enabled() && IsRun(states, events, maxPoints)
        invariant states[0] == old(State()) && states[|events|] == State()
        invariant events == Flatten(parts) && |parts| == i && forall k :: 0 <= k < i ==> EventFor(requests[k], parts[k])
      {
        var more := RunSection(requests[i]);
        FlattenMore(parts, more);
        if |more| == 1 {
          ExtendRun(states, events, maxPoints, more[0], State());
          states := states + [State()];
        }
        events, parts := events + more, parts + [more];
      }
    }

    // Insertion.

    /** What pruning goes by, as the vectors stand now. */
    function RuleWith(alpha: real, range: nat, maxc: nat): Rule
      reads data
    {
      Rule(DistanceOf(data[..], distance), metric, alpha, range, maxc, saturate)
    }

    function OwnRule(): Rule
      reads data
    {
      RuleWith(alpha, range, maxCandidates)
    }

    /** The rule has the parameters given, and its distances are those of the vectors. */
    ghost predicate GoesBy(rule: Rule, alpha: real, range: nat, maxc: nat)
      reads data
    {
      && rule.metric == metric && rule.alpha == alpha && rule.range == range && rule.maxc == maxc
      && rule.saturate == saturate
      && forall i: nat, j: nat {:trigger rule.d(i, j)} :: i < data.Length && j < data.Length ==>
           rule.d(i, j) == distance(data[i], data[j])
    }

    lemma RuleIs(alpha: real, range: nat, maxc: nat)
      ensures GoesBy(RuleWith(alpha, range, maxc), alpha, range, maxc)
    {
    }

    /** The locations expanded in a search for the new point, which end in a fixed point. */
    method Explore(slot: nat, ghost nodes: set<nat>)
        returns (info: seq<Neighbor>, ghost best: seq<Neighbor>, ghost seeds: set<nat>, ghost seen: set<nat>)
      requires data.Length == graph.Length == maxPoints + 1 && queueSize >= 1 && slot <= maxPoints
      requires GraphOk(graph[..], nodes) && maxPoints in nodes
      ensures Distinct(info) && Measured(info, DistancesTo(OwnRule().d, slot, maxPoints + 1)) && HasId(info, maxPoints)
      ensures forall v :: HasId(info, v) ==> v in nodes
      ensures SearchDone(best, seen, graph[..], DistancesTo(OwnRule().d, slot, maxPoints + 1), queueSize)
      ensures forall v :: HasId(best, v) ==> HasId(info, v)
      ensures seeds <= {maxPoints} && maxPoints in seen && Traced(seeds, NodesOf(info), graph[..], seen)
      ensures forall v :: v in NodesOf(info) ==> Explored(v, graph[..], seen)
    {
      hide Explored, Traced, NodesOf, SearchDone, GraphOk, HasId, Distinct, BeamSearch.Reported, Measured;
      var vecs := data[..];
      var dist := seq(|vecs|, i requires 0 <= i < |vecs| => distance(vecs[i], vecs[slot]));
      assert dist == DistancesTo(OwnRule().d, slot, maxPoints + 1);
      var pool := new Neighbor[queueSize + 1](_ => Neighbor(0, 0.0, false));
      var outcome, l, met, expanded, ids, _, from := IterateToFixedPoint(graph[..], dist, queueSize, [maxPoints],
        maxPoints, true, true, false, pool);
      seeds := from;
      assert seeds <= {maxPoints};
      ReachStays(graph[..], nodes, seeds);
      assert outcome.Done? by { NodesInGraph(graph[..], nodes); }
      info, best, seen := expanded, pool[..l], met;
      AllReported(info, ids, best, graph[..], dist, queueSize, seeds, seen);
      assert maxPoints in ids;
      assert ids <= seen by { IdsSeen(info, ids, best, graph[..], dist, seeds, seen); }
    }

    /** Neighbours for the new point, found by searching for it. */
    method SearchNeighbours(slot: nat, ghost nodes: set<nat>) returns (list: seq<nat>)
      requires data.Length == graph.Length == maxPoints + 1 && queueSize >= 1
      requires GraphOk(graph[..], nodes) && maxPoints in nodes && slot < maxPoints && slot !in nodes
      requires maxPoints !in deleteSet
      ensures ListOk(list, nodes) && GraphLists.Found(graph[..], slot, OwnRule(), queueSize, maxPoints, deleteSet, list)
    {
      hide PrunedTo, SearchDone, GraphOk, Measured, Traced, NodesOf, Explored;
      var rule := OwnRule();
      var info;
      ghost var best, seeds, seen;
      info, best, seeds, seen := Explore(slot, nodes);
      var unsorted := RemoveFrom(info, {slot} + deleteSet);
      assert HasId(unsorted, maxPoints);
      var pool := SortedPool(unsorted);
      MeasuredFor(info, unsorted, pool, rule.d, slot, maxPoints + 1, {slot} + deleteSet);
      TracedPool(info, pool, seeds, maxPoints, graph[..], seen, slot, deleteSet);
      PoolFound(graph[..], slot, rule, queueSize, maxPoints, deleteSet, pool, best, seen);
      var r := PruneNeighbors(slot, pool, rule);
      list := r.ids;
      PrunedFacts(pool, slot, rule, list);
    }

    /** Neighbours for the new point while there are few points: the start and the first live ones. */
    method FirstNeighbours(ghost nodes: set<nat>) returns (list: seq<nat>)
      requires locationToTag.Valid() && range >= 2
      requires maxPoints in nodes && maxPoints !in locationToTag.Content() && locationToTag.Content().Keys <= nodes
      ensures ListOk(list, nodes) && Firsts(list, maxPoints, locationToTag.Content().Keys, range)
    {
      hide NaturalMap.Content, NaturalMap.Valid;
      list := [maxPoints];
      var pos := locationToTag.FindFirst();
      while pos.At?
        invariant locationToTag.Proper(pos) && 1 <= |list| < range && list[0] == maxPoints && ListOk(list, nodes)
        invariant forall k :: 1 <= k < |list| ==> list[k] in locationToTag.Content() && (pos.At? ==> list[k] < pos.key)
        invariant forall j, k :: 1 <= j < k < |list| ==> list[j] < list[k]
        invariant forall v :: v in locationToTag.Content() && v !in list ==> pos.At? && pos.key <= v
        decreases range - |list|
      {
        list := list + [pos.key];
        if |list| >= range {
          break;
        }
        pos := locationToTag.FindNext(pos);
      }
    }

    /** The neighbours that a new point at `slot` gets. */
    ghost predicate ChosenFor(before: Graph, slot: nat, list: seq<nat>)
      requires locationToTag.Valid()
      reads this, data, locationToTag
    {
      if nd >= range then GraphLists.Found(before, slot, OwnRule(), queueSize, maxPoints, deleteSet, list)
      else Firsts(list, maxPoints, locationToTag.Content().Keys, range)
    }

    method ChooseNeighbours(slot: nat, ghost nodes: set<nat>) returns (list: seq<nat>)
      requires data.Length == graph.Length == maxPoints + 1 && queueSize >= 1 && locationToTag.Valid() && nd > 0
      requires GraphOk(graph[..], nodes) && maxPoints in nodes && slot < maxPoints && slot !in nodes
      requires maxPoints !in deleteSet && maxPoints !in locationToTag.Content()
      requires locationToTag.Content().Keys <= nodes + {slot}
      requires forall v :: v in locationToTag.Content() ==> v !in deleteSet
      ensures ListOk(list, nodes + {slot}) && |list| <= range && forall v :: v in list ==> v !in deleteSet
      ensures ChosenFor(graph[..], slot, list)
    {
      if nd >= range {
        list := SearchNeighbours(slot, nodes);
        FoundFacts(graph[..], slot, OwnRule(), queueSize, maxPoints, deleteSet, list);
      } else {
        list := FirstNeighbours(nodes + {slot});
        forall k | 0 <= k < |list|
          ensures list[k] !in deleteSet
        {
          if k > 0 {
            assert list[k] in locationToTag.Content();
          }
        }
      }
    }

    /** `inter_insert`: link the neighbours of the new point `n` back to it. */
    method InterInsert(n: nat, list: seq<nat>, ghost nodes: set<nat>)
      requires (data as object) != (graph as object) && data.Length == graph.Length == maxPoints + 1
      requires GraphOk(graph[..], nodes)
      requires n in nodes && graph[n] == list
      modifies graph
      ensures GraphOk(graph[..], nodes)
      ensures forall u :: 0 <= u < graph.Length ==>
        if u in list then LinkedBack(old(graph[u]), n, u, OwnRule(), graph[u]) else graph[u] == old(graph[u])
      ensures forall b {:trigger DegreesWithin(graph[..], nodes, b)} ::
        b >= Slack(range) && old(DegreesWithin(graph[..], nodes, b)) ==> DegreesWithin(graph[..], nodes, b)
    {
      assert ListOk(graph[..][n], nodes);
      for k := 0 to |list|
        invariant GraphOk(graph[..], nodes)
        invariant forall u :: 0 <= u < graph.Length ==>
          if u in list[..k] then LinkedBack(old(graph[u]), n, u, OwnRule(), graph[u]) else graph[u] == old(graph[u])
        invariant forall b {:trigger DegreesWithin(graph[..], nodes, b)} ::
          b >= Slack(range) && old(DegreesWithin(graph[..], nodes, b)) ==> DegreesWithin(graph[..], nodes, b)
      {
        LinkBackAt(n, list[k], nodes);
        assert list[..k + 1] == list[..k] + [list[k]];
      }
      assert list[..|list|] == list;
    }

    method LinkBackAt(n: nat, owner: nat, ghost nodes: set<nat>)
      requires (data as object) != (graph as object) && data.Length == graph.Length == maxPoints + 1
      requires GraphOk(graph[..], nodes)
      requires n in nodes && owner in nodes && (n == owner ==> n in graph[..][owner])
      modifies graph
      ensures GraphOk(graph[..], nodes)
      ensures forall u :: 0 <= u < graph.Length && u != owner ==> graph[u] == old(graph[u])
      ensures LinkedBack(old(graph[..])[owner], n, owner, OwnRule(), graph[..][owner])
      ensures forall b {:trigger DegreesWithin(graph[..], nodes, b)} ::
        b >= Slack(range) && old(DegreesWithin(graph[..], nodes, b)) ==> DegreesWithin(graph[..], nodes, b)
    {
      ghost var g := graph[..];
      var list := LinkBack(graph[owner], n, owner, OwnRule());
      graph[owner] := list;
      assert ListOk(g[owner], nodes) && graph[..] == g[owner := list] && nodes + {owner} == nodes;
      LinkedBackOk(g[owner], n, owner, OwnRule(), list, nodes);
      ReplaceList(g, nodes, owner, list);
      assert forall b :: DegreesWithin(g, nodes, b) ==> |g[owner]| <= b;
    }

    lemma SlotFacts()
      requires ValidSlots()
      ensures forall t :: t in tagToLocation ==> tagToLocation[t] < maxPoints && tagToLocation[t] in Occupied(State())
      ensures maxPoints !in Occupied(State())
      ensures forall v :: v in locationToTag.Content() ==> v !in deleteSet
    {
      OneClass(State(), maxPoints);
      TagSlots(State(), maxPoints);
    }

    /** Reserve a slot and store the vector in it. */
    method Store(point: Vec, tag: Tag) returns (slot: int)
      requires ValidSlots() && data.Length == maxPoints + 1
      modifies this`nd, this`deleteSet, this`tagToLocation, data, emptySlots, locationToTag
      ensures ValidSlots() && (old(Enabled()) ==> Enabled())
      ensures Step(old(State()), Event.Reserve(tag, slot), State(), maxPoints)
      ensures slot == -1 ==> data[..] == old(data[..]) && Points() == old(Points())
      ensures slot != -1 ==> 0 <= slot < maxPoints && data[..] == old(data[..])[slot := point]
      ensures slot != -1 ==> Points() == old(Points())[tag := point]
    {
      hide Core, Tracked, Dense, Step;
      ghost var s, vecs := State(), data[..];
      slot := Reserve(tag);
      ReserveOccupies(s, tag, slot, State(), maxPoints);
      if slot != -1 {
        PointStored(s.tags, vecs, tag, slot, point);
        data[slot] := point;
        assert data[..] == vecs[slot := point];
      }
    }

    /** The new point at `slot` has its neighbours, none of them deleted, and is linked back from them. */
    ghost predicate NewPoint(before: Graph, slot: nat, after: Graph)
      requires locationToTag.Valid()
      reads this, data, locationToTag
    {
      && Linked(before, slot, OwnRule(), after) && ChosenFor(before, slot, after[slot])
      && |after[slot]| <= range && forall v :: v in after[slot] ==> v !in deleteSet
    }

    lemma NewPointIs(before: Graph, slot: nat)
      requires locationToTag.Valid() && slot < graph.Length == |before|
      requires Linked(before, slot, OwnRule(), graph[..]) && ChosenFor(before, slot, graph[..][slot])
      requires |graph[..][slot]| <= range && forall v :: v in graph[..][slot] ==> v !in deleteSet
      ensures NewPoint(before, slot, graph[..])
    {
    }

    lemma ChosenSome(before: Graph, slot: nat, list: seq<nat>)
      requires locationToTag.Valid() && ChosenFor(before, slot, list) && range > 0 && maxCandidates > 0 && alpha >= 1.0
      ensures list != []
    {
      if nd >= range {
        FoundFacts(before, slot, OwnRule(), queueSize, maxPoints, deleteSet, list);
      }
    }

    /** Give the new point at `slot` its list and link its neighbours back. */
    method Link(slot: nat, ghost nodes: set<nat>)
      requires ValidSlots() && (data as object) != (graph as object) && data.Length == graph.Length == maxPoints + 1
      requires queueSize >= 1 && nd > 0
      requires GraphOk(graph[..], nodes) && maxPoints in nodes && slot < maxPoints && slot !in nodes
      requires Nodes() == nodes + {slot}
      modifies graph
      ensures GraphOk(graph[..], nodes + {slot})
      ensures NewPoint(old(graph[..]), slot, graph[..])
      ensures range > 0 && maxCandidates > 0 && alpha >= 1.0 ==> graph[..][slot] != []
      ensures forall b {:trigger DegreesWithin(graph[..], nodes + {slot}, b)} ::
        b >= Slack(range) && old(DegreesWithin(graph[..], nodes, b)) ==> DegreesWithin(graph[..], nodes + {slot}, b)
    {
      hide ListOk, GraphOk, DegreesWithin, LinkedBack, PrunedTo, Linked, GraphLists.Found, Firsts, Classes, Inverse;
      ghost var g := graph[..];
      SlotFacts();
      assert locationToTag.Valid() && maxPoints !in deleteSet && maxPoints !in locationToTag.Content();
      assert locationToTag.Content().Keys <= nodes + {slot};
      var list := ChooseNeighbours(slot, nodes);
      if range > 0 && maxCandidates > 0 && alpha >= 1.0 {
        ChosenSome(g, slot, list);
      }
      hide *;
      ReplaceList(g, nodes, slot, list);
      graph[slot] := list;
      assert graph[..] == g[slot := list];
      InterInsert(slot, list, nodes + {slot});
      LinkedAfter(g, slot, list, OwnRule(), graph[..]);
      assert ChosenFor(g, slot, list);
      NewPointIs(g, slot);
    }

    /** `insert_point`; it does nothing and is refused when the index is full or knows the tag. */
    method InsertPoint(point: Vec, tag: Tag) returns (inserted: bool)
      requires Valid() && !consolidating
      modifies this`nd, this`deleteSet, this`tagToLocation, data, graph, emptySlots, locationToTag
      ensures Valid() && (old(Enabled()) ==> Enabled())
      ensures inserted <==> tag !in old(tagToLocation) && old(nd) < maxPoints
      ensures inserted ==> tag in tagToLocation
      ensures Step(old(State()), Event.Reserve(tag, if inserted then tagToLocation[tag] else -1), State(), maxPoints)
      ensures Points() == if inserted then old(Points())[tag := point] else old(Points())
      ensures !inserted ==> data[..] == old(data[..]) && graph[..] == old(graph[..])
      ensures inserted ==>
        tagToLocation[tag] < maxPoints && data[..] == old(data[..])[tagToLocation[tag] := point]
      ensures GoesBy(OwnRule(), alpha, range, maxCandidates)
      ensures inserted ==> NewPoint(old(graph[..]), tagToLocation[tag], graph[..])
      ensures inserted && range > 0 && maxCandidates > 0 && alpha >= 1.0 ==> graph[..][tagToLocation[tag]] != []
      ensures forall b {:trigger DegreesWithin(graph[..], Nodes(), b)} ::
        b >= Slack(range) && old(DegreesWithin(graph[..], Nodes(), b)) ==> DegreesWithin(graph[..], Nodes(), b)
    {
      hide GraphOk, ListOk, DegreesWithin, Linked, PointsOf, Core, Tracked, Dense, Classes, Occupied, Inverse;
      hide Index.ChosenFor, Index.NewPoint;
      ghost var s, nodes := State(), Nodes();
      var slot := Store(point, tag);
      NodesGrow(s, tag, slot, State(), maxPoints);
      inserted := slot != -1;
      RuleIs(alpha, range, maxCandidates);
      hide Index.GoesBy;
      if inserted {
        Link(slot, nodes);
      }
    }

    // Consolidation.

    /** `process_delete` in place. `before` is the graph when the consolidation began. */
    method ProcessDelete(i: nat, alpha: real, range: nat, maxc: nat, ghost before: Graph)
      requires (data as object) != (graph as object) && i < graph.Length == |before| && i !in oldDeleteSet
      requires graph[i] == before[i]
      requires forall v :: v in graph[i] ==> v < graph.Length
      requires forall w :: 0 <= w < graph.Length && w in oldDeleteSet ==> graph[w] == before[w]
      modifies graph
      ensures Repaired(before, oldDeleteSet, i, RuleWith(alpha, range, maxc), graph[..][i])
      ensures graph[..] == old(graph[..])[i := graph[..][i]]
    {
      ghost var g := graph[..];
      var rule := RuleWith(alpha, range, maxc);
      var list := RepairedList(graph[..], oldDeleteSet, i, rule);
      RepairIsLocal(g, before, oldDeleteSet, i, rule, list);
      graph[i] := list;
    }

    /** The loops of `consolidate_deletes` over the locations. */
    method RepairAll(alpha: real, range: nat, maxc: nat)
      requires Valid() && Enabled()
      modifies graph
      ensures RepairedBelow(old(graph[..]), Nodes(), oldDeleteSet, RuleWith(alpha, range, maxc), graph.Length,
        graph[..])
    {
      ghost var before, nodes, rule := graph[..], Nodes(), RuleWith(alpha, range, maxc);
      NodeFacts();
      assert emptySlots.Valid() && graph.Length == maxPoints + 1 && (data as object) != (graph as object);
      hide *;
      NothingRepaired(before, nodes, oldDeleteSet, rule);
      for loc := 0 to maxPoints
        invariant |graph[..]| == |before| && RuleWith(alpha, range, maxc) == rule
        invariant RepairedBelow(before, nodes, oldDeleteSet, rule, loc, graph[..])
      {
        RepairedAbove(before, nodes, oldDeleteSet, rule, loc, graph[..]);
        if loc !in oldDeleteSet && !emptySlots.IsInSet(loc) {
          assert loc in nodes;
          ghost var g := graph[..];
          ProcessDelete(loc, alpha, range, maxc, before);
          OneMoreRepaired(before, nodes, oldDeleteSet, rule, loc, g, graph[..]);
        } else {
          NoneRepaired(before, nodes, oldDeleteSet, rule, loc, graph[..]);
        }
      }
      ghost var g := graph[..];
      RepairedAbove(before, nodes, oldDeleteSet, rule, maxPoints, g);
      ProcessDelete(maxPoints, alpha, range, maxc, before);
      OneMoreRepaired(before, nodes, oldDeleteSet, rule, maxPoints, g, graph[..]);
    }

    lemma NodeFacts()
      requires Valid() && Enabled()
      ensures maxPoints in Nodes() && maxPoints !in oldDeleteSet
      ensures forall loc: nat :: loc in Nodes() <==> loc == maxPoints || (loc < maxPoints && loc !in emptySlots.Elems())
      ensures forall u {:trigger graph[u]} :: u in Nodes() && u < graph.Length ==> forall v :: v in graph[u] ==>
        v < graph.Length
    {
      OneClass(State(), maxPoints);
      forall u {:trigger graph[u]} | u in Nodes() && u < graph.Length
        ensures forall v :: v in graph[u] ==> v < graph.Length
      {
        assert ListOk(graph[..][u], Nodes());
      }
    }

    /** The part of `consolidate_deletes` that works on the points taken by `TryStart`. */
    method RepairAndRelease(alpha: real, range: nat, maxc: nat) returns (report: Report)
      requires Valid() && Enabled() && consolidating
      modifies this`nd, this`oldDeleteSet, this`consolidating, graph, emptySlots
      ensures Valid() && Enabled() && !consolidating && oldDeleteSet == {}
      ensures report == Success(nd, maxPoints, |emptySlots.values|, old(|oldDeleteSet|), |deleteSet|)
      ensures nd == old(nd) - old(|oldDeleteSet|) && emptySlots.Elems() == old(emptySlots.Elems()) + old(oldDeleteSet)
      ensures forall u :: u in Nodes() ==>
        Repaired(old(graph[..]), old(oldDeleteSet), u, RuleWith(alpha, range, maxc), graph[..][u])
      ensures forall b {:trigger DegreesWithin(graph[..], Nodes(), b)} ::
        b >= range && old(DegreesWithin(graph[..], Nodes(), b)) ==> DegreesWithin(graph[..], Nodes(), b)
    {
      hide Core, Tracked, Dense, Sound, Repaired, DegreesWithin, Occupied, GraphOk;
      ghost var before, nodes, rule, gone := graph[..], Nodes(), RuleWith(alpha, range, maxc), oldDeleteSet;
      NodesInGraph(before, nodes);
      RepairAll(alpha, range, maxc);
      assert RuleWith(alpha, range, maxc) == rule;
      assert forall u {:trigger graph[..][u]} :: u in nodes && u !in gone && u < |before| ==>
        Repaired(before, gone, u, rule, graph[..][u]);
      RepairsKeep(before, nodes, gone, rule, graph[..]);
      var released := |oldDeleteSet|;
      var _ := Release();
      assert RuleWith(alpha, range, maxc) == rule && Nodes() == nodes - gone;
      report := Success(nd, maxPoints, |emptySlots.values|, released, |deleteSet|);
    }

    /** `consolidate_deletes`. While another thread is consolidating it does nothing, and the report
        depends on whether that thread holds deleted points. */
    method ConsolidateDeletes(alpha: real, range: nat, maxc: nat) returns (report: Report)
      requires Valid()
      modifies this`nd, this`deleteSet, this`oldDeleteSet, this`consolidating, graph, emptySlots
      ensures Valid() && (Enabled() <==> old(Enabled())) && consolidating == old(consolidating)
      ensures Points() == old(Points())
      ensures GoesBy(RuleWith(alpha, range, maxc), alpha, range, maxc)
      ensures report == WrongCounts <==> !old(Enabled())
      ensures report == CountError <==> old(Enabled()) && old(oldDeleteSet) != {}
      ensures report == LockFail <==> old(Enabled()) && old(oldDeleteSet) == {} && old(consolidating)
      ensures !report.Success? ==> State() == old(State()) && graph[..] == old(graph[..])
      ensures report.Success? ==>
        && report == Success(nd, maxPoints, |emptySlots.values|, old(|deleteSet|), 0)
        && deleteSet == {} && tagToLocation == old(tagToLocation) && nd == old(nd) - old(|deleteSet|)
        && emptySlots.Elems() == old(emptySlots.Elems()) + old(deleteSet)
        && forall u :: u in Nodes() ==>
             Repaired(old(graph[..]), old(deleteSet), u, RuleWith(alpha, range, maxc), graph[..][u])
      ensures forall b {:trigger DegreesWithin(graph[..], Nodes(), b)} ::
        b >= range && old(DegreesWithin(graph[..], Nodes(), b)) ==> DegreesWithin(graph[..], Nodes(), b)
    {
      hide Core, Tracked, Dense, Sound, GraphOk, Repaired, DegreesWithin, PointsOf, Occupied;
      RuleIs(alpha, range, maxc);
      hide Index.GoesBy;
      var check := CheckCounts();
      if check == SlotsMissing {
        return WrongCounts;
      } else if check == InconsistentCount {
        return CountError;
      }
      var ok := TryStart();
      report := LockFail;
      if ok {
        report := RepairAndRelease(alpha, range, maxc);
      }
    }

    /** `get_vector_by_tag`. */
    method GetVectorByTag(tag: Tag) returns (found: bool, point: Vec)
      requires Valid()
      ensures found <==> tag in Points()
      ensures found ==> point == Points()[tag]
    {
      SlotFacts();
      found, point := false, data[0];
      if tag in tagToLocation {
        found, point := true, data[tagToLocation[tag]];
      }
    }

    // Compaction.

    /** Move the lists and vectors of the live points to the first locations. */
    method MovePoints() returns (newLocation: seq<nat>)
      requires Valid() && Enabled() && deleteSet == {} && oldDeleteSet == {}
      modifies graph, data
      ensures Compacted(old(graph[..]), locationToTag.Content().Keys, maxPoints, graph[..])
      ensures |newLocation| == maxPoints + 1
      ensures MovedVectors(old(data[..]), locationToTag.Content().Keys, maxPoints, data[..])
      ensures data[..][maxPoints] == old(data[..])[maxPoints]
      ensures forall v :: v in locationToTag.Content() ==>
        v < maxPoints && newLocation[v] == Moved(locationToTag.Content().Keys, maxPoints, v)
    {
      ghost var live, g, vecs := locationToTag.Content().Keys, graph[..], data[..];
      OneClass(State(), maxPoints);
      assert Nodes() == live + {maxPoints};
      var empty;
      newLocation, empty := NewLocations(locationToTag, maxPoints);
      forall u {:trigger graph[u]} | (u in live && u < maxPoints) || u == maxPoints
        ensures forall v :: v in graph[u] ==> v <= maxPoints
      {
        assert ListOk(g[u], live + {maxPoints});
      }
      MoveLists(graph, data, live, maxPoints, newLocation, empty);
      AllMoved(g, vecs, live, maxPoints, graph[..], data[..]);
      assert Moved(live, maxPoints, maxPoints) == maxPoints;
    }

    method RebuildTags(newLocation: seq<nat>)
      requires ValidSlots()
      requires forall v :: v in locationToTag.Content() ==>
        v < maxPoints && v < |newLocation| && newLocation[v] == Moved(locationToTag.Content().Keys, maxPoints, v)
      modifies this`tagToLocation, locationToTag
      ensures tagToLocation == MovedTags(old(tagToLocation), old(locationToTag.Content().Keys), maxPoints)
      ensures locationToTag.Valid() && Inverse(locationToTag.Content(), tagToLocation)
    {
      MovedTagsInjective(State(), maxPoints);
      tagToLocation := MoveTags(locationToTag, newLocation, tagToLocation, maxPoints);
      SetLocations(locationToTag, tagToLocation);
    }

    method RelistSlots()
      requires nd <= maxPoints
      modifies emptySlots
      ensures emptySlots.Valid() && emptySlots.values == Range(nd, maxPoints)
      ensures emptySlots.Elems() == Interval(nd, maxPoints)
    {
      emptySlots.Clear();
      ListSlots();
      assert emptySlots.values == [] + Range(nd, maxPoints);
      assert emptySlots.Elems() == {} + Interval(nd, maxPoints);
    }

    /** Rebuild both tag maps, and list the slots beyond the points as empty. */
    method RebuildSlots(newLocation: seq<nat>)
      requires Enabled() && deleteSet == {} && oldDeleteSet == {}
      requires forall v :: v in locationToTag.Content() ==>
        v < maxPoints && v < |newLocation| && newLocation[v] == Moved(locationToTag.Content().Keys, maxPoints, v)
      modifies this`tagToLocation, this`dataCompacted, emptySlots, locationToTag
      ensures Enabled() && dataCompacted && locationToTag.Content().Keys == Below(nd)
      ensures tagToLocation == MovedTags(old(tagToLocation), old(locationToTag.Content().Keys), maxPoints)
      ensures emptySlots.values == Range(nd, maxPoints)
    {
      ghost var s := State();
      EmptySize();
      RebuildTags(newLocation);
      RelistSlots();
      dataCompacted := true;
      CompactedSlots(s, maxPoints, State());
    }

    /** The last loops of `compact_data` over the lists: they are empty already. */
    method ClearLists()
      requires nd <= maxPoints < graph.Length && forall i :: nd <= i < maxPoints ==> graph[i] == []
      modifies graph
      ensures graph[..] == old(graph[..])
    {
      for i := nd to maxPoints
        invariant graph[..] == old(graph[..])
      {
        graph[i] := [];
      }
    }

    /** `compact_data`. */
    method CompactData() returns (r: CompactResult)
      requires Valid() && !consolidating
      modifies this`tagToLocation, this`dataCompacted, graph, data, emptySlots, locationToTag
      ensures Valid() && (Enabled() <==> old(Enabled())) && Points() == old(Points())
      ensures r == AlreadyCompact <==> old(dataCompacted)
      ensures r == DeletesPending <==> deleteSet != {}
      ensures Frozen() == old(Frozen())
      ensures r != DoneCompacting ==>
        State() == old(State()) && graph[..] == old(graph[..]) && data[..] == old(data[..])
      ensures r == DoneCompacting ==>
        && dataCompacted && locationToTag.Content().Keys == Below(nd) && emptySlots.values == Range(nd, maxPoints)
        && tagToLocation == MovedTags(old(tagToLocation), old(locationToTag.Content().Keys), maxPoints)
        && Compacted(old(graph[..]), old(locationToTag.Content().Keys), maxPoints, graph[..])
        && MovedVectors(old(data[..]), old(locationToTag.Content().Keys), maxPoints, data[..])
      ensures forall b {:trigger DegreesWithin(graph[..], Nodes(), b)} ::
        old(DegreesWithin(graph[..], Nodes(), b)) ==> DegreesWithin(graph[..], Nodes(), b)
    {
      if dataCompacted {
        return AlreadyCompact;
      }
      if |deleteSet| > 0 {
        return DeletesPending;
      }
      DoCompact();
      r := DoneCompacting;
    }

    method DoCompact()
      requires Valid() && Enabled() && deleteSet == {} && oldDeleteSet == {}
      modifies this`tagToLocation, this`dataCompacted, graph, data, emptySlots, locationToTag
      ensures Valid() && Enabled() && Points() == old(Points()) && Frozen() == old(Frozen())
      ensures dataCompacted && locationToTag.Content().Keys == Below(nd) && emptySlots.values == Range(nd, maxPoints)
      ensures tagToLocation == MovedTags(old(tagToLocation), old(locationToTag.Content().Keys), maxPoints)
      ensures Compacted(old(graph[..]), old(locationToTag.Content().Keys), maxPoints, graph[..])
      ensures MovedVectors(old(data[..]), old(locationToTag.Content().Keys), maxPoints, data[..])
      ensures forall b {:trigger DegreesWithin(graph[..], Nodes(), b)} ::
        old(DegreesWithin(graph[..], Nodes(), b)) ==> DegreesWithin(graph[..], Nodes(), b)
    {
      hide GraphOk, DegreesWithin, Compacted, MovedVectors, PointsOf, MovedTags, Tracked, Core, Dense, Moved, Occupied;
      ghost var s, g, vecs, live := State(), graph[..], data[..], locationToTag.Content().Keys;
      OnlyLive(s, maxPoints);
      var newLocation := MovePoints();
      CompactedOk(g, live, maxPoints, graph[..]);
      RebuildSlots(newLocation);
      RestEmpty(g, live, maxPoints, graph[..]);
      assert forall i {:trigger graph[i]} :: nd <= i < maxPoints ==> graph[..][i] == [];
      ClearLists();
      OnlyLive(State(), maxPoints);
      PointsMoved(s, maxPoints, vecs, data[..]);
    }

    // One operation at a time, the index is a bounded map.

    ghost function Contents(): Bounded<Vec>
      reads this, data
    {
      Bounded(Points(), |deleteSet|, dataCompacted)
    }

    method ServeInsert(point: Vec, tag: Tag) returns (a: Answer<Vec>)
      requires Valid() && !consolidating
      modifies this`nd, this`deleteSet, this`tagToLocation, data, graph, emptySlots, locationToTag
      ensures Valid() && (old(Enabled()) ==> Enabled())
      ensures a.Ok? ==> tag in tagToLocation
      ensures Step(old(State()), Event.Reserve(tag, if a.Ok? then tagToLocation[tag] else -1), State(), maxPoints)
      ensures BoundedStep(old(Contents()), InsertOp(tag, point), a, Contents(), maxPoints)
      ensures Frozen() == old(Frozen())
      ensures forall b {:trigger DegreesWithin(graph[..], Nodes(), b)} ::
        b >= Slack(range) && old(DegreesWithin(graph[..], Nodes(), b)) ==> DegreesWithin(graph[..], Nodes(), b)
    {
      ghost var s := State();
      PointsSize(s, maxPoints, data[..]);
      var inserted := InsertPoint(point, tag);
      InsertBounded(s, tag, if inserted then tagToLocation[tag] else -1, State(), maxPoints, old(Points()), point);
      a := if inserted then Ok else Refused;
    }

    method ServeDelete(tag: Tag) returns (a: Answer<Vec>)
      requires Valid() && Enabled() && !consolidating
      modifies this`deleteSet, this`tagToLocation, this`dataCompacted, locationToTag
      ensures Valid() && Enabled()
      ensures BoundedStep(old(Contents()), DeleteOp(tag), a, Contents(), maxPoints)
      ensures Nodes() == old(Nodes())
    {
      hide Core, Tracked, Dense, PointsOf, Step, BoundedStep, Occupied;
      ghost var s, vecs := State(), data[..];
      var found := LazyDelete(tag);
      DeleteServed(s, tag, found, State(), maxPoints, vecs);
      a := if found then Ok else Refused;
    }

    method ServeConsolidate(alpha: real, range: nat, maxc: nat) returns (a: Answer<Vec>)
      requires Valid() && Enabled() && !consolidating
      modifies this`nd, this`deleteSet, this`oldDeleteSet, this`consolidating, graph, emptySlots
      ensures Valid() && Enabled() && !consolidating
      ensures BoundedStep(old(Contents()), ConsolidateOp(alpha, range, maxc), a, Contents(), maxPoints)
      ensures forall b {:trigger DegreesWithin(graph[..], Nodes(), b)} ::
        b >= range && old(DegreesWithin(graph[..], Nodes(), b)) ==> DegreesWithin(graph[..], Nodes(), b)
    {
      PointsSize(State(), maxPoints, data[..]);
      OccupiedSize(State(), maxPoints);
      var report := ConsolidateDeletes(alpha, range, maxc);
      EmptySize();
      a := Answer.Reported(report);
    }

    method ServeCompact() returns (a: Answer<Vec>)
      requires Valid() && Enabled() && !consolidating
      modifies this`tagToLocation, this`dataCompacted, graph, data, emptySlots, locationToTag
      ensures Valid() && Enabled()
      ensures BoundedStep(old(Contents()), CompactOp, a, Contents(), maxPoints)
      ensures Frozen() == old(Frozen())
      ensures forall b {:trigger DegreesWithin(graph[..], Nodes(), b)} ::
        old(DegreesWithin(graph[..], Nodes(), b)) ==> DegreesWithin(graph[..], Nodes(), b)
    {
      hide Dense, GraphOk, DegreesWithin, Occupied, PointsOf, Compacted, MovedVectors;
      var result := CompactData();
      a := Compacting(result);
    }

    method ServeGet(tag: Tag) returns (a: Answer<Vec>)
      requires Valid() && Enabled()
      ensures BoundedStep(Contents(), GetOp(tag), a, Contents(), maxPoints)
    {
      var found, point := GetVectorByTag(tag);
      a := if found then Found(point) else Refused;
    }

    /** One operation. */
    method Serve(op: IndexOp<Vec>, ghost bound: nat) returns (a: Answer<Vec>)
      requires Valid() && Enabled() && !consolidating
      modifies this, data, graph, emptySlots, locationToTag
      ensures Valid() && Enabled() && !consolidating
      ensures BoundedStep(old(Contents()), op, a, Contents(), maxPoints)
      ensures Frozen() == old(Frozen())
      ensures bound >= Slack(range) && (op.ConsolidateOp? ==>
        op.range <= bound) && old(DegreesWithin(graph[..], Nodes(), bound)) ==>
        DegreesWithin(graph[..], Nodes(), bound)
    {
      hide Core, Tracked, Dense, Sound, GraphOk, DegreesWithin, BoundedStep, Occupied, PointsOf, Index.Contents;
      match op
      case InsertOp(tag, point) => a := ServeInsert(point, tag);
      case DeleteOp(tag) => a := ServeDelete(tag);
      case ConsolidateOp(alpha, range, maxc) => a := ServeConsolidate(alpha, range, maxc);
      case CompactOp => a := ServeCompact();
      case GetOp(tag) => a := ServeGet(tag);
    }

    /** Any sequence of operations is answered by a bounded map. */
    method Run(ops: seq<IndexOp<Vec>>, ghost bound: nat)
        returns (answers: seq<Answer<Vec>>, ghost states: seq<Bounded<Vec>>)
      requires Valid() && Enabled() && !consolidating
      modifies this, data, graph, emptySlots, locationToTag
      ensures Valid() && Enabled() && !consolidating
      ensures BoundedRun(states, ops, answers, maxPoints) && RoomHeld(states, ops)
      ensures states[0] == old(Contents()) && states[|ops|] == Contents() && Frozen() == old(Frozen())
      ensures bound >= Slack(range) && RangesWithin(ops, bound) && old(DegreesWithin(graph[..], Nodes(), bound)) ==>
        DegreesWithin(graph[..], Nodes(), bound)
    {
      hide Core, Tracked, Dense, Sound, GraphOk, BoundedRun, BoundedStep, DegreesWithin, Occupied, PointsOf;
      hide Index.Contents;
      EmptyRun(Contents(), maxPoints);
      answers, states := [], [Contents()];
      ghost var due := bound >= Slack(range) && RangesWithin(ops, bound) && DegreesWithin(graph[..], Nodes(), bound);
      for i := 0 to |ops|
        invariant Valid() && Enabled() && !consolidating
        invariant BoundedRun(states, ops[..i], answers, maxPoints)
        invariant |states| == i + 1 && |answers| == i && states[0] == old(Contents()) && states[i] == Contents()
        invariant due ==> DegreesWithin(graph[..], Nodes(), bound)
        invariant Frozen() == old(Frozen())
      {
        var a := Serve(ops[i], bound);
        ExtendBounded(states, ops[..i], answers, maxPoints, ops[i], a, Contents());
        answers, states := answers + [a], states + [Contents()];
        assert ops[..i + 1] == ops[..i] + [ops[i]];
      }
      assert ops[..|ops|] == ops;
      RunHoldsRoom(states, ops, answers, maxPoints);
    }
  }

  lemma LiveOnly(s: Slots, max: nat)
    requires s.pending == {} && s.releasing == {}
    ensures Occupied(s) + {max} == s.live.Keys + {max} && Occupied(s) == s.live.Keys
  {
  }

  /** In a state without deleted points. */
  lemma OnlyLive(s: Slots, max: nat)
    requires Tracked(s, max) && s.pending == {} && s.releasing == {}
    ensures Core(s, max) && Occupied(s) + {max} == s.live.Keys + {max} && s.live.Keys <= Below(max)
    ensures |s.live.Keys| == s.nd <= max
  {
    LiveOnly(s, max);
    OneClass(s, max);
    OccupiedSize(s, max);
    hide Core, Occupied;
  }

  lemma RestEmpty(graph: Graph, live: set<nat>, max: nat, graph': Graph)
    requires Compacted(graph, live, max, graph')
    ensures |graph'| == max + 1 && forall i {:trigger graph'[i]} :: |live| <= i < max ==> graph'[i] == []
  {
  }

  lemma PointsMoved<Vec>(s: Slots, max: nat, vecs: seq<Vec>, vecs': seq<Vec>)
    requires Core(s, max) && MovedVectors(vecs, s.live.Keys, max, vecs')
    ensures PointsOf(MovedTags(s.tags, s.live.Keys, max), vecs') == PointsOf(s.tags, vecs)
  {
    TagSlots(s, max);
    var tags' := MovedTags(s.tags, s.live.Keys, max);
    forall t | t in s.tags
      ensures tags'[t] <= max && vecs'[tags'[t]] == vecs[s.tags[t]]
    {
    }
  }

  lemma RangeMembers(values: seq<nat>, from: nat, to: nat)
    requires from <= to
    ensures Members(values + Range(from, to)) == Members(values) + Interval(from, to)
  {
    forall v: nat
      ensures v in Range(from, to) <==> from <= v < to
    {
      if from <= v < to {
        assert Range(from, to)[v - from] == v;
      }
    }
  }

  ghost function Range(from: nat, to: nat): seq<nat>
  {
    seq(if from <= to then to - from else 0, i requires 0 <= i => from + i)
  }

  // The life of an index: insertions, then the enabling of deletion, then anything.

  ghost function TagsOf<Vec>(early: seq<(Tag, Vec)>): set<Tag> {
    set i | 0 <= i < |early| :: early[i].0
  }

  lemma TagsOfMore<Vec>(early: seq<(Tag, Vec)>, x: (Tag, Vec))
    ensures TagsOf(early + [x]) == TagsOf(early) + {x.0}
  {
    var more := early + [x];
    assert more[|early|] == x && forall i :: 0 <= i < |early| ==> more[i] == early[i];
  }

  /** The last of the insertions repeats a tag, and there was room. */
  ghost predicate EndsInRepeat<Vec>(early: seq<(Tag, Vec)>, room: nat) {
    early != [] && early[|early| - 1].0 in TagsOf(early[..|early| - 1]) && |TagsOf(early)| < room
  }

  /** The bookkeeping after insertions into a new index. */
  ghost predicate EarlyInv<Vec>(s: Slots, early: seq<(Tag, Vec)>, max: nat) {
    && Dense(s, max)
    && (if |TagsOf(early)| < max then s.tags.Keys == TagsOf(early) else s.nd == max)
    && s.empty == if EndsInRepeat(early, max) then {s.nd} else {}
  }

  lemma RepeatMore<Vec>(early: seq<(Tag, Vec)>, x: (Tag, Vec), room: nat)
    ensures EndsInRepeat(early + [x], room) <==> x.0 in TagsOf(early) && |TagsOf(early) + {x.0}| < room
    ensures TagsOf(early + [x]) == TagsOf(early) + {x.0}
  {
    hide TagsOf;
    TagsOfMore(early, x);
    assert (early + [x])[..|early|] == early;
  }

  lemma EarlyNotRepeated<Vec>(s: Slots, early: seq<(Tag, Vec)>, max: nat)
    requires EarlyInv(s, early, max) && s.nd >= max
    ensures |TagsOf(early)| >= max && !EndsInRepeat(early, max) && s.nd == max
  {
    TagCount(s, max);
    OccupiedSize(s, max);
  }

  lemma EarlyFull<Vec>(s: Slots, early: seq<(Tag, Vec)>, x: (Tag, Vec), max: nat)
    requires EarlyInv(s, early, max) && s.nd >= max
    ensures EarlyInv(s, early + [x], max)
  {
    hide Core, TagsOf, EndsInRepeat;
    RepeatMore(early, x, max);
    TagCount(s, max);
    EarlyNotRepeated(s, early, max);
    SubsetSize(TagsOf(early), TagsOf(early + [x]));
  }

  lemma EarlyRepeat<Vec>(s: Slots, early: seq<(Tag, Vec)>, x: (Tag, Vec), max: nat)
    requires EarlyInv(s, early, max) && s.nd < max && x.0 in s.tags
    ensures EarlyInv(Returned(s), early + [x], max)
  {
    ReturnKeeps(s, s.nd, max);
    hide Core, Tracked, TagsOf, EndsInRepeat;
    RepeatMore(early, x, max);
    TagCount(s, max);
    assert TagsOf(early) + {x.0} == TagsOf(early);
  }

  lemma DenseTake(s: Slots, t: Tag, max: nat)
    requires Dense(s, max) && s.nd < max && t !in s.tags
    ensures Dense(Take(s, t, s.nd), max)
  {
    CanTakeFree(s, s.nd, max);
    TakeCore(s, t, s.nd, max);
    hide Core;
    TakeKeys(s.live, s.nd, t, {});
    assert Below(s.nd + 1) == Below(s.nd) + {s.nd};
  }

  lemma EarlyTake<Vec>(s: Slots, early: seq<(Tag, Vec)>, x: (Tag, Vec), max: nat)
    requires EarlyInv(s, early, max) && s.nd < max && x.0 !in s.tags
    ensures EarlyInv(Take(s, x.0, s.nd), early + [x], max)
  {
    hide Core;
    TagCount(s, max);
    DenseTake(s, x.0, max);
    assert s.compacted && s.empty - {s.nd} == {} && |TagsOf(early)| < max;
    hide Dense, TagsOf, EndsInRepeat;
    RepeatMore(early, x, max);
    TakeTags(s, x.0);
  }

  lemma TakeTags(s: Slots, t: Tag)
    requires t !in s.tags
    ensures s.tags[t := s.nd].Keys == s.tags.Keys + {t} && |s.tags.Keys + {t}| == |s.tags.Keys| + 1
  {
  }

  lemma TagCount(s: Slots, max: nat)
    requires Dense(s, max)
    ensures |s.tags.Keys| == s.nd
  {
    OccupiedSize(s, max);
    assert |s.tags| == |s.tags.Keys| && s.live.Keys == Below(s.nd);
  }

  lemma EarlyKeeps<Vec>(s: Slots, early: seq<(Tag, Vec)>, x: (Tag, Vec), slot: int, s': Slots, max: nat)
    requires EarlyInv(s, early, max) && Step(s, Event.Reserve(x.0, slot), s', max)
    ensures EarlyInv(s', early + [x], max)
  {
    hide Core;
    if s.nd >= max {
      EarlyFull(s, early, x, max);
    } else if x.0 in s.tags {
      EarlyRepeat(s, early, x, max);
    } else {
      EarlyTake(s, early, x, max);
    }
  }

  /** When deletion can be enabled after the insertions. */
  lemma EarlyEnds<Vec>(s: Slots, early: seq<(Tag, Vec)>, max: nat)
    requires EarlyInv(s, early, max)
    ensures s.compacted && (s.nd == max || s.empty == {} <==> !EndsInRepeat(early, max))
  {
    hide Core;
    TagCount(s, max);
  }

  function Insertions<Vec>(early: seq<(Tag, Vec)>): seq<IndexOp<Vec>> {
    seq(|early|, i requires 0 <= i < |early| => InsertOp(early[i].0, early[i].1))
  }

  lemma JoinRuns<Vec>(states: seq<Bounded<Vec>>, ops: seq<IndexOp<Vec>>, answers: seq<Answer<Vec>>, room: nat,
                      states': seq<Bounded<Vec>>, ops': seq<IndexOp<Vec>>, answers': seq<Answer<Vec>>)
    requires BoundedRun(states, ops, answers, room) && BoundedRun(states', ops', answers', room)
    requires states[|ops|] == states'[0]
    ensures BoundedRun(states + states'[1..], ops + ops', answers + answers', room)
    ensures (states + states'[1..])[|ops + ops'|] == states'[|ops'|]
  {
    hide BoundedStep;
    var all := states + states'[1..];
    forall i {:trigger (answers + answers')[i]} | 0 <= i < |ops + ops'|
      ensures BoundedStep(all[i], (ops + ops')[i], (answers + answers')[i], all[i + 1], room)
    {
      if i >= |ops| {
        var j := i - |ops|;
        assert all[i] == states'[j] && all[i + 1] == states'[j + 1] && (answers + answers')[i] == answers'[j];
      } else {
        assert (answers + answers')[i] == answers[i];
      }
    }
  }

  /** Insert the points one by one into a new index. */
  method InsertEarly<Vec(0)>(index: Index<Vec>, early: seq<(Tag, Vec)>)
      returns (answers: seq<Answer<Vec>>, ghost states: seq<Bounded<Vec>>)
    requires index.Valid() && !index.consolidating && EarlyInv<Vec>(index.State(), [], index.maxPoints)
    requires forall b :: DegreesWithin(index.graph[..], index.Nodes(), b)
    modifies index, index.data, index.graph, index.emptySlots, index.locationToTag
    ensures index.Valid() && !index.consolidating && EarlyInv(index.State(), early, index.maxPoints)
    ensures BoundedRun(states, Insertions(early), answers, index.maxPoints)
    ensures states[0] == old(index.Contents()) && states[|early|] == index.Contents()
    ensures index.Frozen() == old(index.Frozen())
    ensures forall b :: b >= Slack(index.range) ==> DegreesWithin(index.graph[..], index.Nodes(), b)
  {
    hide Core, Tracked, Dense, Sound, GraphOk, BoundedRun, BoundedStep, DegreesWithin, Occupied, PointsOf;
    hide Index.Contents, EarlyInv, Step;
    EmptyRun(index.Contents(), index.maxPoints);
    answers, states := [], [index.Contents()];
    assert Insertions(early[..0]) == [];
    for i := 0 to |early|
      invariant index.Valid() && !index.consolidating && EarlyInv(index.State(), early[..i], index.maxPoints)
      invariant BoundedRun(states, Insertions(early[..i]), answers, index.maxPoints)
      invariant |states| == i + 1 && |answers| == i && states[0] == old(index.Contents())
      invariant states[i] == index.Contents() && index.Frozen() == old(index.Frozen())
      invariant forall b :: b >= Slack(index.range) ==> DegreesWithin(index.graph[..], index.Nodes(), b)
    {
      ghost var s := index.State();
      var a := index.ServeInsert(early[i].1, early[i].0);
      EarlyKeeps(s, early[..i], early[i], if a.Ok? then index.tagToLocation[early[i].0] else -1, index.State(),
        index.maxPoints);
      ExtendBounded(states, Insertions(early[..i]), answers, index.maxPoints, InsertOp(early[i].0, early[i].1), a,
        index.Contents());
      answers, states := answers + [a], states + [index.Contents()];
      assert early[..i + 1] == early[..i] + [early[i]];
      assert Insertions(early[..i + 1]) == Insertions(early[..i]) + [InsertOp(early[i].0, early[i].1)];
    }
    assert early[..|early|] == early;
  }

  lemma ListedNone(slots: NaturalSet)
    ensures slots.IsEmpty() <==> slots.Elems() == {}
  {
    if slots.values != [] {
      assert slots.values[0] in slots.Elems();
    }
  }

  method EnableAfter<Vec(0)>(index: Index<Vec>, early: seq<(Tag, Vec)>) returns (enabled: bool)
    requires index.Valid() && !index.consolidating && EarlyInv(index.State(), early, index.maxPoints)
    modifies index.emptySlots
    ensures enabled <==> !EndsInRepeat(early, index.maxPoints)
    ensures enabled <==> |index.emptySlots.values| + index.nd == index.maxPoints
    ensures index.locationToTag.Valid() && index.Nodes() == old(index.Nodes())
    ensures enabled ==> index.Valid() && index.Enabled()
  {
    hide EarlyInv, EndsInRepeat, Dense, Core, Tracked, GraphOk, Occupied;
    ghost var nodes := index.Nodes();
    EarlyEnds(index.State(), early, index.maxPoints);
    ListedNone(index.emptySlots);
    index.EnableDelete();
    enabled := |index.emptySlots.values| + index.nd == index.maxPoints;
    SameNodes(old(index.State()), index.State());
  }

  lemma SameNodes(s: Slots, s': Slots)
    requires s.live == s'.live && s.pending == s'.pending && s.releasing == s'.releasing
    ensures Occupied(s) == Occupied(s')
  {
  }

  /** A new index with the given points, in which deletion has been enabled. */
  method Prepare<Vec(0)>(maxPoints0: nat, range: nat, queueSize: nat, maxCandidates: nat, alpha: real, saturate: bool,
                         metric: Metric, distance: (Vec, Vec) -> real, frozen: Vec, early: seq<(Tag, Vec)>)
      returns (index: Index<Vec>, enabled: bool, answers: seq<Answer<Vec>>, ghost states: seq<Bounded<Vec>>)
    requires queueSize >= 1
    ensures fresh(index) && fresh(index.data) && fresh(index.graph) && fresh(index.emptySlots)
    ensures fresh(index.locationToTag)
    ensures index.maxPoints == (if maxPoints0 == 0 then 1 else maxPoints0) && index.range == range
    ensures index.queueSize == queueSize && index.maxCandidates == maxCandidates && index.alpha == alpha
    ensures index.saturate == saturate && index.metric == metric && index.distance == distance
    ensures enabled <==> !EndsInRepeat(early, index.maxPoints)
    ensures enabled <==> |index.emptySlots.values| + index.nd == index.maxPoints
    ensures enabled ==> index.Valid() && index.Enabled() && !index.consolidating && index.Frozen() == frozen
    ensures BoundedRun(states, Insertions(early), answers, index.maxPoints)
    ensures states[0] == Bounded(map[], 0, true) && states[|early|] == index.Contents()
    ensures enabled ==> forall b :: b >= Slack(range) ==> DegreesWithin(index.graph[..], index.Nodes(), b)
  {
    index := new Index(maxPoints0, range, queueSize, maxCandidates, alpha, saturate, metric, distance, frozen);
    assert EarlyInv<Vec>(index.State(), [], index.maxPoints) by {
      NothingInserted<Vec>(index.State(), index.maxPoints);
    }
    assert index.Contents() == Bounded(map[], 0, true);
    hide *;
    answers, states := InsertEarly(index, early);
    ghost var b := index.Contents();
    enabled := EnableAfter(index, early);
    assert index.Contents() == b;
  }

  lemma NothingInserted<Vec>(s: Slots, max: nat)
    requires Dense(s, max) && s.empty == {} && s.nd == 0 && s.tags == map[] && max > 0
    ensures EarlyInv<Vec>(s, [], max)
  {
    hide Dense;
    assert TagsOf<Vec>([]) == {};
  }

  /** From its construction on the index is a bounded map, whatever is asked of it after deletion has
      been enabled, unless the last insertion before that repeated a tag while there was room. */
  method RunFromStart<Vec(0)>(maxPoints0: nat, range: nat, queueSize: nat, maxCandidates: nat, alpha: real,
                              saturate: bool, metric: Metric, distance: (Vec, Vec) -> real, frozen: Vec,
                              early: seq<(Tag, Vec)>, ops: seq<IndexOp<Vec>>, ghost bound: nat)
      returns (index: Index<Vec>, enabled: bool, answers: seq<Answer<Vec>>, ghost states: seq<Bounded<Vec>>)
    requires queueSize >= 1
    ensures fresh(index) && index.maxPoints == (if maxPoints0 == 0 then 1 else maxPoints0) && index.range == range
    ensures index.queueSize == queueSize && index.maxCandidates == maxCandidates && index.alpha == alpha
    ensures index.saturate == saturate && index.metric == metric && index.distance == distance
    ensures enabled <==> !EndsInRepeat(early, index.maxPoints)
    ensures enabled <==> |index.emptySlots.values| + index.nd == index.maxPoints
    ensures enabled ==>
      && BoundedRun(states, Insertions(early) + ops, answers, index.maxPoints)
      && RoomHeld(states, Insertions(early) + ops)
      && states[0] == Bounded(map[], 0, true) && states[|early| + |ops|] == index.Contents()
    ensures enabled ==> index.Valid() && index.Enabled() && index.Frozen() == frozen
    ensures enabled && 13 * range < 10 * (bound + 1) && RangesWithin(ops, bound) ==>
      DegreesWithin(index.graph[..], index.Nodes(), bound)
  {
    hide Core, Tracked, Sound, Dense, GraphOk, BoundedRun, BoundedStep, DegreesWithin, Occupied, PointsOf;
    hide EndsInRepeat, RangesWithin, Index.Contents;
    index, enabled, answers, states := Prepare(maxPoints0, range, queueSize, maxCandidates, alpha, saturate, metric,
      distance, frozen, early);
    if enabled {
      ghost var states2;
      var answers2;
      answers2, states2 := index.Run(ops, bound);
      RunLength(states, Insertions(early), answers, index.maxPoints);
      RunLength(states2, ops, answers2, index.maxPoints);
      JoinRuns(states, Insertions(early), answers, index.maxPoints, states2, ops, answers2);
      answers, states := answers + answers2, states + states2[1..];
      RunHoldsRoom(states, Insertions(early) + ops, answers, index.maxPoints);
      index.EmptySize();
    }
  }

  lemma RunLength<Vec>(states: seq<Bounded<Vec>>, ops: seq<IndexOp<Vec>>, answers: seq<Answer<Vec>>, room: nat)
    requires BoundedRun(states, ops, answers, room)
    ensures |states| == |ops| + 1 && |answers| == |ops|
  {
  }

  lemma InsertedDeleted(b0: Bounded<int>, a: Answer<int>, b1: Bounded<int>, d: Answer<int>, b2: Bounded<int>)
    requires b0 == Bounded(map[], 0, true)
    requires BoundedStep(b0, InsertOp(7, 1), a, b1, 2) && BoundedStep(b1, DeleteOp(7), d, b2, 2)
    ensures b2.held == 1
  {
  }

  lemma HeldAre(index: Index<int>)
    ensures index.Contents().held == |index.deleteSet|
  {
  }

  /** A thread starts a consolidation while points are deleted. */
  method StartHolding(index: Index<int>)
    requires index.Valid() && index.Enabled() && !index.consolidating && index.deleteSet != {}
    modifies index`consolidating, index`deleteSet, index`oldDeleteSet
    ensures index.Valid() && index.Enabled() && index.oldDeleteSet != {}
  {
    hide Core, Tracked, Dense, Sound, GraphOk, Occupied, Classes, Inverse;
    var started := index.TryStart();
  }

  lemma NoRepeatYet<Vec>(room: nat)
    ensures !EndsInRepeat<Vec>([], room)
  {
  }

  /** An index with one deleted point. */
  method DeletedPoint(distance: (int, int) -> real) returns (index: Index<int>)
    ensures fresh(index) && fresh(index.data) && fresh(index.graph) && fresh(index.emptySlots)
    ensures fresh(index.locationToTag)
    ensures index.Valid() && index.Enabled() && !index.consolidating && index.deleteSet != {}
  {
    hide *;
    NoRepeatYet<int>(2);
    var enabled, answers;
    ghost var states;
    index, enabled, answers, states := Prepare(2, 2, 1, 1, 1.0, false, L2, distance, 0, []);
    ghost var b0 := index.Contents();
    var inserted := index.ServeInsert(1, 7);
    ghost var b1 := index.Contents();
    var deleted := index.ServeDelete(7);
    InsertedDeleted(b0, inserted, b1, deleted, index.Contents());
    HeldAre(index);
  }

  /** A second thread consolidates while the first one holds a deleted point: it is told of inconsistent counts,
      although nothing is wrong with them, and not that the other is at work. */
  method SecondConsolidation(distance: (int, int) -> real) returns (report: Report)
    ensures report == CountError
  {
    hide *;
    var index := DeletedPoint(distance);
    StartHolding(index);
    report := index.ConsolidateDeletes(1.0, 2, 1);
  }

  /** A tag inserted twice into a new index with room for two points: enabling deletion then lists the
      second slot twice, and consolidation fails. */
  method RepeatedTag(distance: (int, int) -> real) returns (check: CountCheck)
    ensures check == SlotsMissing
  {
    var early := [(7, 1), (7, 2)];
    var index, enabled, _, _ := Prepare(2, 2, 1, 1, 1.0, false, L2, distance, 0, early);
    assert early[..1] == [(7, 1)] && early[..1][0].0 == 7;
    assert TagsOf(early) == {7};
    assert EndsInRepeat(early, 2);
    check := index.CheckCounts();
  }
}
