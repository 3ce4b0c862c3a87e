/** The bookkeeping of the dynamic index: which slot is empty, live, deleted or being released, and
    which tag lives where. Every critical section of the index is one step on this state, so a
    sequence of steps is an interleaving of threads. */
module SlotState {
  import opened Sets

  type Tag = nat

  datatype Slots = Slots(empty: set<nat>, live: map<nat, Tag>, tags: map<Tag, nat>,
                         pending: set<nat>, releasing: set<nat>, nd: nat, busy: bool, compacted: bool)

  ghost function Occupied(s: Slots): set<nat> {
    s.live.Keys + s.pending + s.releasing
  }

  ghost predicate Maps(m: map<nat, nat>, k: nat, v: nat) {
    k in m && m[k] == v
  }

  /** The two tag maps are inverse to each other. */
  ghost predicate Inverse(live: map<nat, Tag>, tags: map<Tag, nat>) {
    forall t, v {:trigger Maps(tags, t, v)} {:trigger Maps(live, v, t)} :: Maps(tags, t, v) <==> Maps(live, v, t)
  }

  /** In how many classes a slot is. */
  ghost function Classes(s: Slots, v: nat): nat {
    (if v in s.live then 1 else 0) + (if v in s.pending then 1 else 0) + (if v in s.releasing then 1 else 0) +
      (if v in s.empty then 1 else 0)
  }

  ghost predicate Core(s: Slots, max: nat) {
    && (forall v: nat {:trigger Classes(s, v)} :: Classes(s, v) <= if v < max then 1 else 0)
    && Inverse(s.live, s.tags)
    && s.nd == |s.live| + |s.pending| + |s.releasing|
    && (!s.busy ==> s.releasing == {})
    && (s.compacted ==> s.pending == {} && s.releasing == {})
  }

  /** Every slot is in exactly one class. */
  ghost predicate Tracked(s: Slots, max: nat) {
    Core(s, max) && forall v: nat {:trigger Classes(s, v)} :: v < max ==> Classes(s, v) == 1
  }

  /** Before deletion is enabled the live slots come first, and no slot is listed as empty except
      the next one, after it was returned by a refused insertion. */
  ghost predicate Dense(s: Slots, max: nat) {
    Core(s, max) && s.compacted && s.empty <= {s.nd} && s.live.Keys == Below(s.nd)
  }

  ghost predicate Sound(s: Slots, max: nat) {
    Tracked(s, max) || Dense(s, max)
  }

  lemma OneClass(s: Slots, max: nat)
    requires Core(s, max)
    ensures s.live.Keys * s.pending == {} && (s.live.Keys + s.pending) * s.releasing == {}
    ensures Occupied(s) * s.empty == {}
    ensures Occupied(s) + s.empty <= Below(max)
    ensures Tracked(s, max) ==> Occupied(s) + s.empty == Below(max)
  {
    forall v: nat
      ensures v in s.live ==> v !in s.pending && v !in s.releasing && v !in s.empty && v < max
      ensures v in s.pending ==> v !in s.releasing && v !in s.empty && v < max
      ensures v in s.releasing ==> v !in s.empty && v < max
      ensures v in s.empty ==> v < max
      ensures Tracked(s, max) && v < max ==> v in s.live || v in s.pending || v in s.releasing || v in s.empty
    {
      assert Classes(s, v) <= if v < max then 1 else 0;
    }
  }

  lemma UnionSize(live: set<nat>, pending: set<nat>, releasing: set<nat>, empty: set<nat>)
    requires live * pending == {} && (live + pending) * releasing == {} && (live + pending + releasing) * empty == {}
    ensures |live + pending + releasing| == |live| + |pending| + |releasing|
    ensures |live + pending + releasing + empty| == |live| + |pending| + |releasing| + |empty|
  {
  }

  lemma OccupiedSize(s: Slots, max: nat)
    requires Core(s, max)
    ensures |Occupied(s)| == s.nd <= max && |s.live| == |s.tags|
    ensures Tracked(s, max) <==> |s.empty| + s.nd == max
  {
    OneClass(s, max);
    UnionSize(s.live.Keys, s.pending, s.releasing, s.empty);
    SubsetSize(Occupied(s), Below(max));
    if !Tracked(s, max) {
      var v: nat :| v < max && Classes(s, v) != 1;
      assert Classes(s, v) <= 1;
      ProperSubsetSize(Occupied(s) + s.empty, Below(max), v);
    }
    InverseSize(s.live, s.tags);
  }

  lemma InverseDrop(live: map<nat, Tag>, tags: map<Tag, nat>, t: Tag)
    requires Inverse(live, tags) && t in tags
    ensures tags[t] in live && live[tags[t]] == t
    ensures Inverse(live - {tags[t]}, tags - {t})
  {
    assert Maps(tags, t, tags[t]);
    var live', tags' := live - {tags[t]}, tags - {t};
    forall t', v
      ensures Maps(tags', t', v) <==> Maps(live', v, t')
    {
      assert Maps(tags, t', v) <==> Maps(live, v, t');
    }
  }

  lemma InverseAdd(live: map<nat, Tag>, tags: map<Tag, nat>, t: Tag, v: nat)
    requires Inverse(live, tags) && t !in tags && v !in live
    ensures Inverse(live[v := t], tags[t := v])
  {
    var live', tags' := live[v := t], tags[t := v];
    forall t', v'
      ensures Maps(tags', t', v') <==> Maps(live', v', t')
    {
      assert Maps(tags, t', v') <==> Maps(live, v', t');
    }
  }

  lemma {:induction false} InverseSize(live: map<nat, Tag>, tags: map<Tag, nat>)
    requires Inverse(live, tags)
    ensures |live| == |tags|
  {
    if t :| t in tags {
      InverseDrop(live, tags, t);
      InverseSize(live - {tags[t]}, tags - {t});
      assert (live - {tags[t]}).Keys == live.Keys - {tags[t]};
      assert (tags - {t}).Keys == tags.Keys - {t};
    } else {
      TagOf(live, tags);
      assert live.Keys == {};
    }
  }

  lemma InversePairs(live: map<nat, Tag>, tags: map<Tag, nat>)
    requires Inverse(live, tags)
    ensures forall t :: t in tags ==> tags[t] in live && live[tags[t]] == t
    ensures forall v :: v in live ==> live[v] in tags && tags[live[v]] == v
  {
    TagOf(live, tags);
    assert forall t :: t in tags ==> Maps(tags, t, tags[t]);
  }

  lemma TagOf(live: map<nat, Tag>, tags: map<Tag, nat>)
    requires Inverse(live, tags)
    ensures forall v :: v in live ==> live[v] in tags && tags[live[v]] == v
  {
    assert forall v :: v in live ==> Maps(live, v, live[v]);
  }

  lemma TagSlots(s: Slots, max: nat)
    requires Core(s, max)
    ensures forall t :: t in s.tags ==>
      s.tags[t] in s.live && s.live[s.tags[t]] == t && s.tags[t] < max && s.tags[t] !in s.pending
    ensures forall v :: v in s.live ==> s.live[v] in s.tags && s.tags[s.live[v]] == v
  {
    TagOf(s.live, s.tags);
    forall t | t in s.tags
      ensures s.tags[t] in s.live && s.live[s.tags[t]] == t && s.tags[t] < max && s.tags[t] !in s.pending
    {
      assert Maps(s.tags, t, s.tags[t]);
      assert Classes(s, s.tags[t]) <= if s.tags[t] < max then 1 else 0;
    }
  }

  /** The critical sections, with what each of them answers. `Reserve` is the first part of
      `insert_point`, `Start` and `Release` are the ends of `consolidate_deletes`. */
  datatype Event =
    | Reserve(tag: Tag, slot: int)
    | Delete(tag: Tag, found: bool)
    | Start(ok: bool)
    | Release

  ghost predicate CanTake(s: Slots, slot: nat) {
    if s.compacted && s.empty == {} then slot == s.nd else slot in s.empty
  }

  function Take(s: Slots, tag: Tag, slot: nat): Slots {
    s.(live := s.live[slot := tag], tags := s.tags[tag := slot], empty := s.empty - {slot}, nd := s.nd + 1)
  }

  /** An insertion that finds its tag taken gives the slot back, which lists it as empty. */
  function Returned(s: Slots): Slots {
    if s.compacted && s.empty == {} then s.(empty := {s.nd}) else s
  }

  ghost predicate Step(s: Slots, e: Event, s': Slots, max: nat) {
    match e
    case Reserve(t, slot) =>
      if s.nd >= max then slot == -1 && s' == s
      else if t in s.tags then slot == -1 && s' == Returned(s)
      else slot >= 0 && CanTake(s, slot) && s' == Take(s, t, slot)
    case Delete(t, found) =>
      && found == (t in s.tags)
      && s' == if t in s.tags then Drop(s, t) else s.(compacted := false)
    case Start(ok) =>
      ok == !s.busy && s' == if s.busy then s else s.(busy := true, releasing := s.pending, pending := {})
    case Release =>
      s.busy && s.nd >= |s.releasing| &&
      s' == s.(busy := false, empty := s.empty + s.releasing, releasing := {}, nd := s.nd - |s.releasing|)
  }

  lemma CanTakeFree(s: Slots, slot: nat, max: nat)
    requires Sound(s, max) && s.nd < max && CanTake(s, slot)
    ensures slot < max && slot !in Occupied(s)
    ensures Tracked(s, max) ==> slot in s.empty
  {
    OccupiedSize(s, max);
    assert Classes(s, slot) <= if slot < max then 1 else 0;
  }

  lemma TakeClasses(s: Slots, t: Tag, slot: nat, v: nat)
    requires slot !in Occupied(s)
    ensures Classes(Take(s, t, slot), v) == if v == slot then 1 else Classes(s, v)
  {
  }

  lemma TakeSize(live: map<nat, Tag>, slot: nat, t: Tag)
    requires slot !in live
    ensures |live[slot := t]| == |live| + 1
  {
    assert live[slot := t].Keys == live.Keys + {slot};
  }

  lemma TakeCore(s: Slots, t: Tag, slot: nat, max: nat)
    requires Core(s, max) && s.nd < max && t !in s.tags && slot < max && slot !in Occupied(s)
    ensures Core(Take(s, t, slot), max)
    ensures Tracked(s, max) ==> Tracked(Take(s, t, slot), max)
  {
    InverseAdd(s.live, s.tags, t, slot);
    TakeSize(s.live, slot, t);
    forall v: nat
      ensures Classes(Take(s, t, slot), v) == if v == slot then 1 else Classes(s, v)
    {
      TakeClasses(s, t, slot, v);
    }
  }

  lemma TakeKeys(live: map<nat, Tag>, slot: nat, t: Tag, others: set<nat>)
    ensures live[slot := t].Keys == live.Keys + {slot}
    ensures live[slot := t].Keys + others == live.Keys + others + {slot}
  {
  }

  lemma TakeOccupies(s: Slots, t: Tag, slot: nat)
    ensures Occupied(Take(s, t, slot)) == Occupied(s) + {slot}
  {
    var s' := Take(s, t, slot);
    TakeKeys(s.live, slot, t, s.pending + s.releasing);
    assert Occupied(s') == s'.live.Keys + (s.pending + s.releasing);
    assert Occupied(s) == s.live.Keys + (s.pending + s.releasing);
  }

  lemma TakeKeeps(s: Slots, t: Tag, slot: nat, max: nat)
    requires Sound(s, max) && s.nd < max && t !in s.tags && CanTake(s, slot)
    ensures Sound(Take(s, t, slot), max) && slot !in Occupied(s)
    ensures Tracked(s, max) ==> Tracked(Take(s, t, slot), max)
  {
    CanTakeFree(s, slot, max);
    TakeCore(s, t, slot, max);
    if !Tracked(s, max) {
      TakeKeys(s.live, slot, t, {});
    }
  }

  function Drop(s: Slots, t: Tag): Slots
    requires t in s.tags
  {
    s.(compacted := false, live := s.live - {s.tags[t]}, tags := s.tags - {t}, pending := s.pending + {s.tags[t]})
  }

  /** What an insertion does to the occupied slots. */
  lemma ReserveOccupies(s: Slots, t: Tag, slot: int, s': Slots, max: nat)
    requires Sound(s, max) && Step(s, Reserve(t, slot), s', max)
    ensures slot == -1 ==> Occupied(s') == Occupied(s) && s'.tags == s.tags
    ensures slot != -1 ==> 0 <= slot < max && slot !in Occupied(s) && Occupied(s') == Occupied(s) + {slot}
    ensures slot != -1 ==> t !in s.tags && s'.tags == s.tags[t := slot] && forall t' :: t' in s.tags ==>
      s.tags[t'] != slot
  {
    TagSlots(s, max);
    if slot != -1 {
      CanTakeFree(s, slot, max);
      TakeOccupies(s, t, slot);
    }
  }

  lemma DropSize(live: map<nat, Tag>, pending: set<nat>, d: nat)
    requires d in live && d !in pending
    ensures |live - {d}| == |live| - 1 && |pending + {d}| == |pending| + 1
  {
    assert (live - {d}).Keys == live.Keys - {d};
  }

  lemma DropOccupies(s: Slots, t: Tag)
    requires t in s.tags && s.tags[t] in s.live
    ensures Occupied(Drop(s, t)) == Occupied(s)
  {
    var d := s.tags[t];
    assert (s.live - {d}).Keys == s.live.Keys - {d};
  }

  lemma DropKeeps(s: Slots, t: Tag, max: nat)
    requires Tracked(s, max) && t in s.tags
    ensures Tracked(Drop(s, t), max)
  {
    InverseDrop(s.live, s.tags, t);
    assert Classes(s, s.tags[t]) == 1;
    DropSize(s.live, s.pending, s.tags[t]);
    forall v: nat
      ensures Classes(Drop(s, t), v) == Classes(s, v)
    {
    }
  }

  lemma DeleteKeeps(s: Slots, t: Tag, max: nat, s': Slots)
    requires Tracked(s, max) && Step(s, Delete(t, t in s.tags), s', max)
    ensures Tracked(s', max) && Occupied(s') == Occupied(s)
  {
    if t in s.tags {
      InverseDrop(s.live, s.tags, t);
      DropKeeps(s, t, max);
      DropOccupies(s, t);
    } else {
      forall v: nat
        ensures Classes(s', v) == Classes(s, v)
      {
      }
    }
  }

  lemma ReleaseReady(s: Slots, max: nat)
    requires Tracked(s, max)
    ensures s.releasing !! s.empty && |s.empty| + s.nd == max && |s.releasing| <= s.nd
  {
    OneClass(s, max);
    OccupiedSize(s, max);
    SubsetSize(s.releasing, Occupied(s));
  }

  lemma ReleaseClasses(s: Slots, max: nat, s': Slots, v: nat)
    requires Tracked(s, max) && Step(s, Release, s', max)
    ensures Classes(s', v) == Classes(s, v)
  {
    hide Inverse;
    assert Classes(s, v) <= 1;
  }

  lemma ReleaseOccupies(s: Slots, max: nat, s': Slots)
    requires Core(s, max) && s'.live == s.live && s'.pending == s.pending && s'.releasing == {}
    ensures Occupied(s') == Occupied(s) - s.releasing
  {
    OneClass(s, max);
    hide Core;
  }

  lemma ReleaseKeeps(s: Slots, max: nat, s': Slots)
    requires Tracked(s, max) && Step(s, Release, s', max)
    ensures Tracked(s', max) && Occupied(s') == Occupied(s) - s.releasing && s'.nd == |s.live| + |s.pending|
  {
    forall v: nat
      ensures Classes(s', v) == Classes(s, v)
    {
      ReleaseClasses(s, max, s', v);
    }
    ReleaseOccupies(s, max, s');
    hide Inverse, Classes, Occupied;
    assert Core(s', max);
  }

  lemma StartKeeps(s: Slots, ok: bool, max: nat, s': Slots)
    requires Tracked(s, max) && Step(s, Start(ok), s', max)
    ensures Tracked(s', max) && Occupied(s') == Occupied(s)
  {
    forall v: nat
      ensures Classes(s', v) == Classes(s, v)
    {
    }
  }

  lemma ReturnClasses(s: Slots, v: nat)
    requires s.compacted && s.empty == {}
    ensures Classes(Returned(s), v) == Classes(s, v) + if v == s.nd then 1 else 0
  {
  }

  lemma ReturnFresh(s: Slots, max: nat)
    requires Dense(s, max) && s.nd < max && s.empty == {}
    ensures Dense(Returned(s), max) && !Tracked(s, max)
  {
    assert Classes(s, s.nd) == 0;
    hide Inverse, Occupied, Classes;
    forall v: nat
      ensures Classes(Returned(s), v) == Classes(s, v) + if v == s.nd then 1 else 0
    {
      ReturnClasses(s, v);
    }
  }

  lemma ReturnKeeps(s: Slots, slot: nat, max: nat)
    requires Sound(s, max) && s.nd < max && CanTake(s, slot)
    ensures Sound(Returned(s), max) && Returned(s).empty == s.empty + {slot}
    ensures Tracked(s, max) ==> Returned(s) == s
  {
    if s.compacted && s.empty == {} {
      OccupiedSize(s, max);
      hide Core, Occupied, Classes;
      ReturnFresh(s, max);
    } else {
      hide *;
      assert Returned(s) == s && s.empty == s.empty + {slot};
    }
  }

  /** Every critical section, of whatever thread, keeps each slot in exactly one class. */
  lemma StepKeeps(s: Slots, e: Event, s': Slots, max: nat)
    requires Tracked(s, max) && Step(s, e, s', max)
    ensures Tracked(s', max)
  {
    match e
    case Reserve(t, slot) =>
      if slot >= 0 {
        TakeKeeps(s, t, slot, max);
      } else {
        OccupiedSize(s, max);
      }
    case Delete(t, found) => DeleteKeeps(s, t, max, s');
    case Start(ok) => StartKeeps(s, ok, max, s');
    case Release => ReleaseKeeps(s, max, s');
  }

  /** Listing the free slots, as `enable_delete` does, gives each slot its class. */
  lemma EnableKeeps(s: Slots, max: nat)
    requires Sound(s, max)
    ensures !s.compacted || s.nd == max ==> Tracked(s, max)
    ensures s.empty == {} ==> Tracked(s.(empty := Interval(s.nd, max)), max)
  {
    OccupiedSize(s, max);
    if s.nd == max && Dense(s, max) {
      assert Classes(s, max) == 0;
    }
    if s.empty == {} {
      assert Tracked(s, max) ==> Interval(s.nd, max) == {};
      forall v: nat | !Tracked(s, max)
        ensures Classes(s.(empty := Interval(s.nd, max)), v) == if v < max then 1 else 0
      {
        assert v in s.live <==> v < s.nd;
      }
    }
  }

  ghost predicate IsRun(states: seq<Slots>, events: seq<Event>, max: nat) {
    && |states| == |events| + 1 && Tracked(states[0], max)
    && forall i {:trigger events[i]} :: 0 <= i < |events| ==> Step(states[i], events[i], states[i + 1], max)
  }

  lemma ExtendRun(states: seq<Slots>, events: seq<Event>, max: nat, e: Event, s: Slots)
    requires IsRun(states, events, max) && Step(states[|events|], e, s, max)
    ensures IsRun(states + [s], events + [e], max)
  {
  }

  lemma {:induction false} RunKeeps(states: seq<Slots>, events: seq<Event>, max: nat, n: nat)
    requires IsRun(states, events, max) && n <= |events|
    ensures Tracked(states[n], max)
  {
    if n > 0 {
      RunKeeps(states, events, max, n - 1);
      StepKeeps(states[n - 1], events[n - 1], states[n], max);
    }
  }

  /** Only a release makes room: a slot deleted at one moment and handed out at a later one has
      been released in between. */
  lemma {:induction false} NoEarlyReuse(states: seq<Slots>, events: seq<Event>, max: nat, i: nat, j: nat, slot: nat)
    requires IsRun(states, events, max) && i <= j <= |events|
    requires slot in states[i].pending + states[i].releasing && slot in states[j].live
    ensures exists k :: i <= k < j && events[k] == Release
  {
    RunKeeps(states, events, max, j);
    assert Classes(states[j], slot) <= 1;
    if forall k :: i <= k < j ==> events[k] != Release {
      StaysDeleted(states, events, max, i, j, slot);
    }
  }

  lemma {:induction false} StaysDeleted(states: seq<Slots>, events: seq<Event>, max: nat, i: nat, j: nat, slot: nat)
    requires IsRun(states, events, max) && i <= j <= |events|
    requires slot in states[i].pending + states[i].releasing
    requires forall k :: i <= k < j ==> events[k] != Release
    ensures slot in states[j].pending + states[j].releasing
  {
    if i < j {
      StaysDeleted(states, events, max, i, j - 1, slot);
      RunKeeps(states, events, max, j - 1);
      var s, e, s' := states[j - 1], events[j - 1], states[j];
      assert e != Release && Step(s, e, s', max);
      if e.Reserve? && e.slot >= 0 {
        TakeKeeps(s, e.tag, e.slot, max);
      } else {
        OccupiedSize(s, max);
      }
    }
  }

  /** An insertion is refused exactly when the tag is taken or the points that are live or deleted
      but not yet released fill the index. */
  lemma RefusedIff(s: Slots, t: Tag, slot: int, s': Slots, max: nat)
    requires Tracked(s, max) && Step(s, Reserve(t, slot), s', max)
    ensures slot == -1 <==> t in s.tags || |s.live| + |s.pending| + |s.releasing| == max
    ensures slot == -1 ==> s' == s
    ensures slot != -1 ==> slot in s.empty && s'.tags == s.tags[t := slot]
  {
    OccupiedSize(s, max);
  }

  /** Of the counts `consolidate_deletes` checks first, one is off exactly before deletion is enabled
      and one exactly while another consolidation holds deleted points. */
  lemma CountsAgreeIff(s: Slots, max: nat)
    requires Sound(s, max)
    ensures |s.empty| + s.nd == max <==> Tracked(s, max)
    ensures |s.live| + |s.pending| == s.nd <==> s.releasing == {}
    ensures |s.live| == |s.tags|
  {
    OccupiedSize(s, max);
  }
}
