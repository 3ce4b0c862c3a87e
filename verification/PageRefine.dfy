/** The end of `page_search`: the exact distances of the first entries of the candidate list, and the nearest
    `k` results. A node can be noted twice here, and the check for repeats compares neighbours only. */
module PageRefine {
  import opened BeamSearch
  import opened IoPipeline
  import opened NeighborPool
  import opened PageSearch
  import opened Refine
  import opened Sets

  // The extraction of the results.

  ghost function IdsOf(s: seq<Neighbor>): (ids: seq<nat>)
    ensures |ids| == |s|
  {
    seq(|s|, i requires 0 <= i < |s| => s[i].id)
  }

  /** What is copied of a sorted list: at most `k` entries, none with the id of the entry before it. */
  ghost function Copied(s: seq<Neighbor>, k: nat): (c: seq<Neighbor>)
    ensures |c| <= k
  {
    if s == [] then [] else
      var n := |s| - 1;
      var c := Copied(s[..n], k);
      if |c| < k && !(n > 0 && s[n].id == s[n - 1].id) then c + [s[n]] else c
  }

  /** Sort by exact distance and copy `k` results, skipping an id equal to the one before. `sorted` is the
      order that the sort leaves. */
  method TopResults(full: seq<Neighbor>, k: nat)
      returns (ids: seq<nat>, distances: seq<real>, ghost sorted: seq<Neighbor>)
    ensures multiset(sorted) == multiset(full) && Sorted(sorted)
    ensures ids == IdsOf(Copied(sorted, k)) && |distances| == |ids|
    ensures forall t :: 0 <= t < |ids| ==> distances[t] == Copied(sorted, k)[t].distance
  {
    var a := new Neighbor[|full|](i requires 0 <= i < |full| => full[i]);
    assert a[..|full|] == full;
    SortPool(a, |full|);
    sorted := a[..];
    assert a[..|full|] == a[..];
    ids, distances := [], [];
    var i := 0;
    ghost var c := [];
    while i < a.Length && |ids| < k
      invariant 0 <= i <= |sorted| == a.Length && sorted == a[..] && c == Copied(sorted[..i], k)
      invariant ids == IdsOf(c) && |distances| == |ids| && forall t :: 0 <= t < |ids| ==> distances[t] == c[t].distance
      decreases a.Length - i
    {
      assert sorted[..i + 1][..i] == sorted[..i];
      if !(i > 0 && a[i].id == a[i - 1].id) {
        ids, distances := ids + [a[i].id], distances + [a[i].distance];
        c := c + [a[i]];
      }
      i := i + 1;
    }
    NoMoreCopied(sorted, k, i);
    assert sorted[..|sorted|] == sorted;
  }

  /** After `k` results nothing is copied any more. */
  lemma {:induction false} NoMoreCopied(s: seq<Neighbor>, k: nat, n: nat)
    requires n <= |s| && (n == |s| || |Copied(s[..n], k)| == k)
    ensures Copied(s, k) == Copied(s[..n], k)
  {
    if n == |s| {
      assert s[..n] == s;
    } else {
      var m := |s| - 1;
      assert s[..m][..n] == s[..n];
      NoMoreCopied(s[..m], k, n);
    }
  }

  /** The results ascend, and a node that is not among them is no nearer than they are. */
  ghost predicate NearestFirst(s: seq<Neighbor>, c: seq<Neighbor>, k: nat) {
    && Sorted(c)
    && forall i {:trigger s[i]} :: 0 <= i < |s| && s[i].id !in IdsOf(c) ==>
         |c| == k && forall t :: 0 <= t < |c| ==> c[t].distance <= s[i].distance
  }

  lemma {:induction false} CopiedNearest(s: seq<Neighbor>, k: nat)
    requires Sorted(s)
    ensures NearestFirst(s, Copied(s, k), k)
  {
    if s != [] {
      var n := |s| - 1;
      CopiedNearest(s[..n], k);
      var c := Copied(s[..n], k);
      forall t | 0 <= t < |c|
        ensures c[t].distance <= s[n].distance
      {
        var i := CopiedFrom(s[..n], k, t);
      }
      hide NearestFirst;
      NearestMore(s, c, k);
    }
  }

  lemma NearestMore(s: seq<Neighbor>, c: seq<Neighbor>, k: nat)
    requires s != [] && Sorted(s) && NearestFirst(s[..|s| - 1], c, k) && |c| <= k
    requires forall t :: 0 <= t < |c| ==> c[t].distance <= s[|s| - 1].distance
    ensures |c| < k ==> NearestFirst(s, c + [s[|s| - 1]], k)
    ensures |c| == k || (|s| > 1 && s[|s| - 1].id == s[|s| - 2].id) ==> NearestFirst(s, c, k)
  {
    var n := |s| - 1;
    var p, c' := s[..n], c + [s[n]];
    assert IdsOf(c') == IdsOf(c) + [s[n].id];
    hide IdsOf;
    forall i | 0 <= i < n
      ensures s[i].id in IdsOf(c) || (|c| == k && forall t :: 0 <= t < |c| ==> c[t].distance <= s[i].distance)
    {
      assert p[i] == s[i];
    }
    if |s| > 1 {
      assert s[n - 1].id in IdsOf(c) || |c| == k;
    }
  }

  /** All notes of a node are the same. */
  ghost predicate OneNote(s: seq<Neighbor>) {
    forall i, j :: 0 <= i < |s| && 0 <= j < |s| && s[i].id == s[j].id ==> s[i] == s[j]
  }

  /** A node noted twice is as far away as another one. */
  ghost predicate TiedTwice(s: seq<Neighbor>) {
    exists x, y :: multiset(s)[x] >= 2 && y in multiset(s) && y.id != x.id && y.distance == x.distance
  }

  lemma {:induction false} CopiedFrom(s: seq<Neighbor>, k: nat, t: nat) returns (i: nat)
    requires t < |Copied(s, k)|
    ensures i < |s| && s[i] == Copied(s, k)[t]
  {
    var n := |s| - 1;
    var c := Copied(s[..n], k);
    if t < |c| {
      i := CopiedFrom(s[..n], k, t);
    } else {
      i := n;
    }
  }

  lemma TwoPlaces(s: seq<Neighbor>, i: nat, j: nat)
    requires i < j < |s| && s[i] == s[j]
    ensures multiset(s)[s[i]] >= 2
  {
    assert s == s[..j] + s[j..];
    assert s[i] in s[..j] && s[j] in s[j..];
  }

  /** Without such a node the check finds every repeat. */
  lemma {:induction false} CopiedOnce(s: seq<Neighbor>, k: nat)
    requires Sorted(s) && OneNote(s) && !TiedTwice(s)
    ensures NoRepeats(IdsOf(Copied(s, k)))
  {
    hide TiedTwice;
    if s != [] {
      var n := |s| - 1;
      PrefixTied(s, n);
      CopiedOnce(s[..n], k);
      var c := Copied(s[..n], k);
      if n > 0 && s[n].id != s[n - 1].id {
        LastIsNew(s, k);
      }
      assert IdsOf(c + [s[n]]) == IdsOf(c) + [s[n].id];
      hide IdsOf;
      if n == 0 {
        assert c == [];
      }
    }
  }

  lemma LastIsNew(s: seq<Neighbor>, k: nat)
    requires Sorted(s) && OneNote(s) && !TiedTwice(s) && |s| > 1 && s[|s| - 1].id != s[|s| - 2].id
    ensures s[|s| - 1].id !in IdsOf(Copied(s[..|s| - 1], k))
  {
    hide TiedTwice, Copied;
    var n := |s| - 1;
    var c := Copied(s[..n], k);
    forall t | 0 <= t < |c|
      ensures c[t].id != s[n].id
    {
      var i := CopiedFrom(s[..n], k, t);
      if c[t].id == s[n].id {
        TiedAt(s, i, n - 1, n);
      }
    }
  }

  lemma TiedAt(s: seq<Neighbor>, i: nat, m: nat, n: nat)
    requires i < m < n < |s| && s[i] == s[n] && s[m].id != s[n].id && s[m].distance == s[n].distance
    ensures TiedTwice(s)
  {
    TwoPlaces(s, i, n);
    assert s[m] in multiset(s);
  }

  lemma PrefixTied(s: seq<Neighbor>, n: nat)
    requires n <= |s|
    ensures TiedTwice(s[..n]) ==> TiedTwice(s)
  {
    if TiedTwice(s[..n]) {
      var x, y :| multiset(s[..n])[x] >= 2 && y in multiset(s[..n]) && y.id != x.id && y.distance == x.distance;
      assert s == s[..n] + s[n..];
      assert multiset(s)[x] >= 2 && y in multiset(s);
    }
  }

  // With such a node there is an order that hides a repeat: the other node between the two notes.

  lemma {:induction false} PlaceIn(s: seq<Neighbor>, d: real) returns (p: nat)
    requires Sorted(s)
    ensures p <= |s| && (forall i :: 0 <= i < p ==> s[i].distance < d)
    ensures forall i :: p <= i < |s| ==> s[i].distance >= d
  {
    if s == [] || s[|s| - 1].distance < d {
      p := |s|;
    } else {
      p := PlaceIn(s[..|s| - 1], d);
    }
  }

  lemma PutIn(r: seq<Neighbor>, p: nat, e: Neighbor)
    requires Sorted(r) && p <= |r| && (forall i :: 0 <= i < p ==> r[i].distance < e.distance)
    requires forall i :: p <= i < |r| ==> r[i].distance >= e.distance
    ensures Sorted(r[..p] + [e] + r[p..]) && multiset(r[..p] + [e] + r[p..]) == multiset(r) + multiset{e}
  {
    assert r == r[..p] + r[p..];
  }

  lemma {:induction false} SomeOrder(m: multiset<Neighbor>) returns (s: seq<Neighbor>)
    ensures Sorted(s) && multiset(s) == m
    decreases |m|
  {
    if m == multiset{} {
      s := [];
    } else {
      var e :| e in m;
      var r := SomeOrder(m - multiset{e});
      var p := PlaceIn(r, e.distance);
      s := r[..p] + [e] + r[p..];
      PutIn(r, p, e);
      hide Sorted;
    }
  }

  lemma {:induction false} CopiedPrefix(s: seq<Neighbor>, k: nat, n: nat)
    requires n <= |s|
    ensures Copied(s[..n], k) <= Copied(s, k)
  {
    if n == |s| {
      assert s[..n] == s;
    } else {
      assert s[..|s| - 1][..n] == s[..n];
      CopiedPrefix(s[..|s| - 1], k, n);
    }
  }

  lemma {:induction false} CopiedShort(s: seq<Neighbor>, k: nat)
    ensures |Copied(s, k)| <= |s|
  {
    if s != [] {
      CopiedShort(s[..|s| - 1], k);
    }
  }

  lemma CopiedNext(s: seq<Neighbor>, k: nat, n: nat)
    requires n < |s| <= k && (n > 0 ==> s[n].id != s[n - 1].id)
    ensures Copied(s[..n + 1], k) == Copied(s[..n], k) + [s[n]]
  {
    CopiedShort(s[..n], k);
    assert s[..n + 1][..n] == s[..n];
  }

  lemma SortedAround(r: seq<Neighbor>, p: nat, x: Neighbor, y: Neighbor)
    requires Sorted(r) && p <= |r| && y.distance == x.distance
    requires (forall i :: 0 <= i < p ==> r[i].distance < x.distance)
    requires forall i :: p <= i < |r| ==> r[i].distance >= x.distance
    ensures Sorted(r[..p] + [x, y, x] + r[p..])
  {
    var s := r[..p] + [x, y, x] + r[p..];
    forall i | 0 <= i < |s|
      ensures s[i] == if i < p then r[i] else if i == p || i == p + 2 then x else if i == p + 1 then y else r[i - 3]
    {
    }
  }

  lemma AroundNotes(a: seq<Neighbor>, b: seq<Neighbor>, x: Neighbor, y: Neighbor)
    ensures multiset(a + [x, y, x] + b) == multiset(a + b) + multiset{x, y, x}
  {
  }

  lemma AroundPlaces(a: seq<Neighbor>, b: seq<Neighbor>, x: Neighbor, y: Neighbor)
    ensures var s, p := a + [x, y, x] + b, |a|;
      && p + 2 < |s| && s[p] == x && s[p + 1] == y && s[p + 2] == x && (p > 0 ==> s[p - 1] == a[p - 1])
  {
  }

  lemma PutBetween(r: seq<Neighbor>, p: nat, x: Neighbor, y: Neighbor)
    requires Sorted(r) && p <= |r| && y.distance == x.distance
    requires (forall i :: 0 <= i < p ==> r[i].distance < x.distance)
    requires forall i :: p <= i < |r| ==> r[i].distance >= x.distance
    ensures Sorted(r[..p] + [x, y, x] + r[p..])
    ensures multiset(r[..p] + [x, y, x] + r[p..]) == multiset(r) + multiset{x, y, x}
    ensures var s := r[..p] + [x, y, x] + r[p..];
      && p + 2 < |s| && s[p] == x && s[p + 1] == y && s[p + 2] == x && (p > 0 ==> s[p - 1].distance < x.distance)
  {
    SortedAround(r, p, x, y);
    hide *;
    assert r == r[..p] + r[p..];
    AroundNotes(r[..p], r[p..], x, y);
    AroundPlaces(r[..p], r[p..], x, y);
  }

  lemma TakenOut(m: multiset<Neighbor>, x: Neighbor, y: Neighbor)
    requires m[x] >= 2 && y in m && y != x
    ensures m == m - multiset{x, y, x} + multiset{x, y, x}
  {
  }

  /** An order with `y` between two notes of `x`. */
  lemma Between(full: seq<Neighbor>, x: Neighbor, y: Neighbor) returns (s: seq<Neighbor>, p: nat)
    requires OneNote(full) && multiset(full)[x] >= 2 && y in multiset(full) && y.id != x.id && y.distance == x.distance
    ensures multiset(s) == multiset(full) && Sorted(s)
    ensures p + 2 < |s| && s[p] == x && s[p + 1] == y && s[p + 2] == x && (p > 0 ==> s[p - 1].distance < x.distance)
  {
    hide *;
    TakenOut(multiset(full), x, y);
    var r := SomeOrder(multiset(full) - multiset{x, y, x});
    p := PlaceIn(r, x.distance);
    PutBetween(r, p, x, y);
    s := r[..p] + [x, y, x] + r[p..];
  }

  lemma CopiedTwice(c: seq<Neighbor>, x: Neighbor, y: Neighbor, all: seq<Neighbor>)
    requires c + [x] + [y] + [x] <= all
    ensures !NoRepeats(IdsOf(all))
  {
    var a := |c|;
    assert (c + [x] + [y] + [x])[a] == x && (c + [x] + [y] + [x])[a + 2] == x;
    assert IdsOf(all)[a] == x.id && IdsOf(all)[a + 2] == x.id;
  }

  lemma HiddenRepeat(full: seq<Neighbor>) returns (s: seq<Neighbor>)
    requires OneNote(full) && TiedTwice(full)
    ensures multiset(s) == multiset(full) && Sorted(s) && !NoRepeats(IdsOf(Copied(s, |s|)))
  {
    var x, y :| multiset(full)[x] >= 2 && y in multiset(full) && y.id != x.id && y.distance == x.distance;
    var p;
    s, p := Between(full, x, y);
    NotesMoved(full, s);
    hide Copied, OneNote, Sorted, TiedTwice;
    if p > 0 {
      DifferentNotes(s, p - 1, p);
    }
    var k := |s|;
    CopiedNext(s, k, p);
    CopiedNext(s, k, p + 1);
    CopiedNext(s, k, p + 2);
    CopiedPrefix(s, k, p + 3);
    CopiedTwice(Copied(s[..p], k), x, y, Copied(s, k));
  }

  lemma DifferentNotes(s: seq<Neighbor>, i: nat, j: nat)
    requires OneNote(s) && i < |s| && j < |s| && s[i].distance != s[j].distance
    ensures s[i].id != s[j].id
  {
  }

  lemma SameNote(s: seq<Neighbor>, x: Neighbor, y: Neighbor)
    requires OneNote(s) && x in multiset(s) && y in multiset(s)
    ensures x.id == y.id ==> x == y
  {
    var i :| 0 <= i < |s| && s[i] == x;
    var j :| 0 <= j < |s| && s[j] == y;
  }

  lemma NotesMoved(full: seq<Neighbor>, s: seq<Neighbor>)
    requires multiset(s) == multiset(full) && OneNote(full)
    ensures OneNote(s)
  {
    forall i, j | 0 <= i < |s| && 0 <= j < |s| && s[i].id == s[j].id
      ensures s[i] == s[j]
    {
      assert s[i] in multiset(s) && s[j] in multiset(s);
      SameNote(full, s[i], s[j]);
    }
  }

  /** The results name no node twice, however entries at equal distances are ordered and however many are asked for,
      if and only if no node noted twice is as far away as another one. */
  lemma RepeatsIff(full: seq<Neighbor>)
    requires OneNote(full)
    ensures (forall s, k {:trigger Copied(s, k)} ::
      multiset(s) == multiset(full) && Sorted(s) ==> NoRepeats(IdsOf(Copied(s, k)))) <==> !TiedTwice(full)
  {
    if TiedTwice(full) {
      var s := HiddenRepeat(full);
      assert !NoRepeats(IdsOf(Copied(s, |s|)));
    } else {
      forall s, k: nat {:trigger Copied(s, k)} | multiset(s) == multiset(full) && Sorted(s)
        ensures NoRepeats(IdsOf(Copied(s, k)))
      {
        NotesMoved(full, s);
        CopiedOnce(s, k);
      }
    }
  }

  // The refine phase.

  /** The pages carry the exact distances of their nodes. */
  ghost predicate ExactOk(s: Layout, exact: seq<real>) {
    && Consistent(s) && |exact| == |s.id2page|
    && forall pid: nat, j {:trigger s.pages[pid][j]} :: pid < |s.pages| && 0 <= j < |s.pages[pid]| ==>
         j < |s.disk(pid).exact| && s.pages[pid][j] < |exact| && s.disk(pid).exact[j] == exact[s.pages[pid][j]]
  }

  /** How often a node has been noted. */
  ghost function Occ(full: seq<Neighbor>, u: nat): nat {
    multiset(IdsOf(full))[u]
  }

  lemma OccMore(full: seq<Neighbor>, e: Neighbor)
    ensures forall u: nat {:trigger Occ(full + [e], u)} ::
      Occ(full + [e], u) == Occ(full, u) + if u == e.id then 1 else 0
  {
    assert IdsOf(full + [e]) == IdsOf(full) + [e.id];
  }

  /** Every note is exact. */
  ghost predicate Exacts(full: seq<Neighbor>, exact: seq<real>) {
    forall k :: 0 <= k < |full| ==> full[k].id < |exact| && full[k] == Neighbor(full[k].id, exact[full[k].id], true)
  }

  /** `exact_visited`: the nodes that have been noted. */
  ghost predicate Records(full: seq<Neighbor>, exactVisited: set<nat>) {
    forall u: nat {:trigger u in exactVisited} :: u in exactVisited <==> Occ(full, u) > 0
  }

  /** What the refine phase starts from. `exact0` and `pages0` are the nodes noted and the pages asked for. */
  datatype Start = Start(store: Layout, memEmb: set<nat>, pool: seq<Neighbor>, exact0: set<nat>, pages0: set<nat>,
                         visited: set<nat>)

  ghost predicate StartOk(r: Start) {
    && Consistent(r.store) && Distinct(r.pool)
    && forall i :: 0 <= i < |r.pool| ==> r.pool[i].id < |r.store.id2page|
  }

  /** Node `u` has no exact distance yet, and its page has not been asked for. */
  ghost predicate Open(r: Start, u: nat) {
    u < |r.store.id2page| && u !in r.exact0 && r.store.id2page[u] !in r.pages0
  }

  /** The pages read for the first `n` entries: those with an open entry that has no vector in memory. */
  ghost function PagesRead(r: Start, n: nat): set<nat> {
    set i | 0 <= i < n && i < |r.pool| && Open(r, r.pool[i].id) && r.pool[i].id !in r.memEmb ::
      r.store.id2page[r.pool[i].id]
  }

  /** Entry `i` is looked up in memory: it is open and has a vector there, and no entry before it has its page read. */
  ghost predicate FromMemory(r: Start, i: nat) {
    && i < |r.pool| && Open(r, r.pool[i].id) && r.pool[i].id in r.memEmb
    && r.store.id2page[r.pool[i].id] !in PagesRead(r, i)
  }

  ghost function LookedUp(r: Start, n: nat): set<nat> {
    set i | 0 <= i < n && FromMemory(r, i) :: r.pool[i].id
  }

  ghost predicate WithPage(r: Start, u: nat, pages: set<nat>) {
    u in r.visited && u < |r.store.id2page| && r.store.id2page[u] in pages
  }

  /** How often a node is noted for the first `n` entries. */
  ghost function Notes(r: Start, n: nat, u: nat): nat {
    (if u in LookedUp(r, n) then 1 else 0) + (if WithPage(r, u, PagesRead(r, n)) then 1 else 0)
  }

  ghost predicate NotedFor(r: Start, n: nat, full0: seq<Neighbor>, full: seq<Neighbor>) {
    forall u: nat {:trigger Occ(full, u)} :: Occ(full, u) == Occ(full0, u) + Notes(r, n, u)
  }

  /** The test for the next entry agrees with the one at the start. */
  lemma OpenNow(r: Start, from: nat, n: nat, exactVisited: set<nat>, full0: seq<Neighbor>, full: seq<Neighbor>)
    requires StartOk(r) && from <= n < |r.pool| && Records(full0, r.exact0) && Records(full, exactVisited)
    requires NotedFor(r, from, full0, full)
    ensures var u := r.pool[n].id;
      (u !in exactVisited && r.store.id2page[u] !in r.pages0 + PagesRead(r, n)) <==>
        Open(r, u) && r.store.id2page[u] !in PagesRead(r, n)
  {
    var u := r.pool[n].id;
    assert u in exactVisited <==> Occ(full, u) > 0;
    assert u in r.exact0 <==> Occ(full0, u) > 0;
    assert u !in LookedUp(r, from);
    assert PagesRead(r, from) <= PagesRead(r, n);
  }

  lemma NextEntry(r: Start, n: nat)
    requires StartOk(r) && n < |r.pool|
    ensures var u := r.pool[n].id; var isOpen := Open(r, u) && r.store.id2page[u] !in PagesRead(r, n);
      && PagesRead(r, n + 1) == PagesRead(r, n) + (if isOpen && u !in r.memEmb then {r.store.id2page[u]} else {})
      && LookedUp(r, n + 1) == LookedUp(r, n) + (if isOpen && u in r.memEmb then {u} else {})
    ensures r.pool[n].id !in LookedUp(r, n)
  {
    var u := r.pool[n].id;
    assert Open(r, u) && u !in r.memEmb ==> r.store.id2page[u] in PagesRead(r, n + 1);
    assert FromMemory(r, n) ==> u in LookedUp(r, n + 1);
  }

  /** What one batch looks up: nodes with a vector in memory, and pages to read by buffer. */
  datatype Batch = Batch(cached: seq<nat>, pages: map<nat, nat>, pageVisited: set<nat>, sectorIdx: nat)

  ghost predicate Planned(r: Start, b: Batch, from: nat, n: nat) {
    && NoRepeats(b.cached) && Members(b.cached) == LookedUp(r, n) - LookedUp(r, from)
    && b.pages.Values == PagesRead(r, n) - PagesRead(r, from) && b.pageVisited == r.pages0 + PagesRead(r, n)
    && (forall x, y :: x in b.pages && y in b.pages && b.pages[x] == b.pages[y] ==> x == y)
    && forall x :: x in b.pages ==> x < MAX_N_SECTOR_READS
  }

  lemma PlanNothing(r: Start, from: nat, sectorIdx: nat)
    ensures Planned(r, Batch([], map[], r.pages0 + PagesRead(r, from), sectorIdx), from, from)
  {
  }

  lemma PlanSame(r: Start, b: Batch, from: nat, n: nat)
    requires Planned(r, b, from, n) && PagesRead(r, n + 1) == PagesRead(r, n) && LookedUp(r, n + 1) == LookedUp(r, n)
    ensures Planned(r, b, from, n + 1)
  {
  }

  lemma PlanLookUp(r: Start, b: Batch, from: nat, n: nat, u: nat)
    requires Planned(r, b, from, n) && PagesRead(r, n + 1) == PagesRead(r, n) && u !in LookedUp(r, n) && from <= n
    requires LookedUp(r, n + 1) == LookedUp(r, n) + {u}
    ensures Planned(r, b.(cached := b.cached + [u]), from, n + 1)
  {
    assert LookedUp(r, from) <= LookedUp(r, n);
    assert Members(b.cached + [u]) == Members(b.cached) + {u};
    assert u !in Members(b.cached);
  }

  lemma PlanPage(r: Start, b: Batch, from: nat, n: nat, pid: nat, sectorIdx: nat)
    requires Planned(r, b, from, n) && LookedUp(r, n + 1) == LookedUp(r, n) && pid !in PagesRead(r, n) && from <= n
    requires PagesRead(r, n + 1) == PagesRead(r, n) + {pid}
    requires b.sectorIdx !in b.pages && b.sectorIdx < MAX_N_SECTOR_READS
    ensures Planned(r, Batch(b.cached, b.pages[b.sectorIdx := pid], b.pageVisited + {pid}, sectorIdx), from, n + 1)
  {
    assert PagesRead(r, from) <= PagesRead(r, n);
    var pages' := b.pages[b.sectorIdx := pid];
    assert pages'[b.sectorIdx] == pid;
    assert forall x :: x in b.pages ==> b.pages[x] in b.pages.Values && pages'[x] == b.pages[x];
    forall v | v in b.pages.Values
      ensures v in pages'.Values
    {
      var x :| x in b.pages && b.pages[x] == v;
      assert pages'[x] == v;
    }
    forall v | v in pages'.Values
      ensures v == pid || v in b.pages.Values
    {
      var x :| x in pages' && pages'[x] == v;
    }
  }

  /** The loop over the list: what to look up in one batch of at most `MAX_N_SECTOR_READS` entries. */
  method PlanPages(ghost r: Start, s: Layout, memEmb: set<nat>, pool: seq<Neighbor>, from: nat, embL: nat,
                   exactVisited: set<nat>, pageVisited0: set<nat>, sectorIdx0: nat, ghost start: nat,
                   ghost full0: seq<Neighbor>, ghost full: seq<Neighbor>)
      returns (to: nat, b: Batch, ghost start': nat)
    requires StartOk(r) && r.store == s && r.memEmb == memEmb && r.pool == pool && from < embL <= |pool|
    requires Records(full0, r.exact0) && Records(full, exactVisited)
    requires NotedFor(r, from, full0, full)
    requires pageVisited0 == r.pages0 + PagesRead(r, from) && sectorIdx0 == Buffer(start)
    ensures from < to <= embL && Planned(r, b, from, to) && b.sectorIdx == Buffer(start')
  {
    hide Records, NotedFor, PagesRead, LookedUp, Open, Planned;
    assert |pool| == |r.pool| && forall i :: 0 <= i < |pool| ==> pool[i].id < |s.id2page|;
    hide StartOk;
    to, b, start' := from, Batch([], map[], pageVisited0, sectorIdx0), start;
    PlanNothing(r, from, sectorIdx0);
    while to - from < MAX_N_SECTOR_READS && to < embL
      invariant from <= to <= embL && to - from <= MAX_N_SECTOR_READS && Planned(r, b, from, to)
      invariant b.pageVisited == r.pages0 + PagesRead(r, to)
      invariant start <= start' <= start + (to - from) && b.sectorIdx == Buffer(start')
      invariant InWindow(b.pages, start, start')
      decreases embL - to
    {
      var u := pool[to].id;
      OpenNow(r, from, to, exactVisited, full0, full);
      NextEntry(r, to);
      NextFree(b.pages, start, start', s.id2page[u]);
      NextBuffer(start');
      if u !in exactVisited && s.id2page[u] !in b.pageVisited {
        if u in memEmb {
          PlanLookUp(r, b, from, to, u);
          b := b.(cached := b.cached + [u]);
        } else {
          var pid, next := s.id2page[u], (b.sectorIdx + 1) % MAX_N_SECTOR_READS;
          PlanPage(r, b, from, to, pid, next);
          b := Batch(b.cached, b.pages[b.sectorIdx := pid], b.pageVisited + {pid}, next);
          start' := start' + 1;
        }
      } else {
        PlanSame(r, b, from, to);
        WindowGrows(b.pages, start, start', start');
      }
      to := to + 1;
    }
  }

  lemma WindowGrows(pages: map<nat, nat>, from: nat, to: nat, to': nat)
    requires InWindow(pages, from, to) && to <= to'
    ensures InWindow(pages, from, to')
  {
    forall b | b in pages
      ensures IssuedIn(b, from, to')
    {
      var n: nat :| from <= n < to && Buffer(n) == b;
      assert from <= n < to';
    }
  }

  /** Note a node with its exact distance. */
  method Note(full0: seq<Neighbor>, exactVisited0: set<nat>, u: nat, distance: real, ghost exact: seq<real>)
      returns (full: seq<Neighbor>, exactVisited: set<nat>)
    requires Exacts(full0, exact) && Records(full0, exactVisited0) && u < |exact| && distance == exact[u]
    ensures Exacts(full, exact) && Records(full, exactVisited)
    ensures forall v: nat {:trigger Occ(full, v)} :: Occ(full, v) == Occ(full0, v) + if v == u then 1 else 0
  {
    full, exactVisited := full0 + [Neighbor(u, distance, true)], exactVisited0 + {u};
    OccMore(full0, Neighbor(u, distance, true));
  }

  ghost predicate Noted(full0: seq<Neighbor>, full: seq<Neighbor>, nodes: set<nat>) {
    forall v: nat {:trigger Occ(full, v)} :: Occ(full, v) == Occ(full0, v) + if v in nodes then 1 else 0
  }

  /** The nodes of the batch with a vector in memory. */
  method NoteCached(cached: seq<nat>, vectors: seq<real>, full0: seq<Neighbor>, exactVisited0: set<nat>)
      returns (full: seq<Neighbor>, exactVisited: set<nat>)
    requires Exacts(full0, vectors) && Records(full0, exactVisited0) && NoRepeats(cached)
    requires forall u :: u in cached ==> u < |vectors|
    ensures Exacts(full, vectors) && Records(full, exactVisited) && Noted(full0, full, Members(cached))
  {
    hide Exacts, Records, Occ;
    full, exactVisited := full0, exactVisited0;
    for i := 0 to |cached|
      invariant Exacts(full, vectors) && Records(full, exactVisited) && Noted(full0, full, Members(cached[..i]))
    {
      assert cached[..i + 1] == cached[..i] + [cached[i]] && cached[i] in cached && cached[i] !in cached[..i];
      full, exactVisited := Note(full, exactVisited, cached[i], vectors[cached[i]], vectors);
    }
    assert cached[..|cached|] == cached;
  }

  ghost function MetOn(layout: seq<nat>, visited: set<nat>): set<nat> {
    set u | u in layout && u in visited
  }

  /** The nodes of a page that has been read, if they have been met. */
  method NotePage(layout: seq<nat>, page: Page, visited: set<nat>, ghost exact: seq<real>, full0: seq<Neighbor>,
                  exactVisited0: set<nat>)
      returns (full: seq<Neighbor>, exactVisited: set<nat>)
    requires Exacts(full0, exact) && Records(full0, exactVisited0) && NoRepeats(layout) && |layout| <= |page.exact|
    requires forall j :: 0 <= j < |layout| ==> layout[j] < |exact| && page.exact[j] == exact[layout[j]]
    ensures Exacts(full, exact) && Records(full, exactVisited) && Noted(full0, full, MetOn(layout, visited))
  {
    hide Exacts, Records, Occ;
    full, exactVisited := full0, exactVisited0;
    for j := 0 to |layout|
      invariant Exacts(full, exact) && Records(full, exactVisited) && Noted(full0, full, MetOn(layout[..j], visited))
    {
      assert layout[..j + 1] == layout[..j] + [layout[j]] && layout[j] in layout && layout[j] !in layout[..j];
      if layout[j] in visited {
        full, exactVisited := Note(full, exactVisited, layout[j], page.exact[j], exact);
      }
    }
    assert layout[..|layout|] == layout;
  }

  /** The pages in those buffers of the batch that are no longer awaited. */
  ghost function Arrived(pages: map<nat, nat>, left: set<nat>): set<nat> {
    set b | b in pages && b !in left :: pages[b]
  }

  ghost function MetOnPages(r: Start, pages: set<nat>): set<nat> {
    set u | u in r.visited && WithPage(r, u, pages)
  }

  lemma PageArrives(r: Start, exact: seq<real>, pages: map<nat, nat>, left: set<nat>, b: nat)
    requires ExactOk(r.store, exact) && b in left && b in pages && pages[b] < |r.store.pages|
    requires forall x, y :: x in pages && y in pages && pages[x] == pages[y] ==> x == y
    ensures MetOnPages(r, Arrived(pages, left - {b})) ==
      MetOnPages(r, Arrived(pages, left)) + MetOn(r.store.pages[pages[b]], r.visited)
    ensures MetOnPages(r, Arrived(pages, left)) !! MetOn(r.store.pages[pages[b]], r.visited)
  {
    var pid := pages[b];
    assert Arrived(pages, left - {b}) == Arrived(pages, left) + {pid};
    forall u: nat | u < |r.store.id2page|
      ensures u in r.store.pages[pid] <==> r.store.id2page[u] == pid
    {
      OnePageOf(r.store, exact, u, pid);
    }
    PageNodes(r.store, exact, pid);
  }

  lemma OnePageOf(s: Layout, exact: seq<real>, u: nat, pid: nat)
    requires ExactOk(s, exact) && u < |s.id2page| && pid < |s.pages|
    ensures u in s.pages[pid] <==> s.id2page[u] == pid
  {
    assert OnPage(s, FrontierNode(u, s.id2page[u]));
  }

  lemma PageNodes(s: Layout, exact: seq<real>, pid: nat)
    requires ExactOk(s, exact) && pid < |s.pages|
    ensures forall u :: u in s.pages[pid] ==> u < |s.id2page|
  {
  }

  lemma NotedFurther(full0: seq<Neighbor>, full1: seq<Neighbor>, full2: seq<Neighbor>, a: set<nat>, b: set<nat>)
    requires Noted(full0, full1, a) && Noted(full1, full2, b) && a !! b
    ensures Noted(full0, full2, a + b)
  {
  }

  /** The pages of the batch, in whatever order they arrive. */
  method NotePages(ghost r: Start, s: Layout, pages: map<nat, nat>, visited: set<nat>, scratch: array<Page>,
                   ghost exact: seq<real>, full0: seq<Neighbor>, exactVisited0: set<nat>)
      returns (full: seq<Neighbor>, exactVisited: set<nat>)
    requires ExactOk(s, exact) && r.store == s && r.visited == visited && scratch.Length == MAX_N_SECTOR_READS
    requires Exacts(full0, exact) && Records(full0, exactVisited0)
    requires forall x, y :: x in pages && y in pages && pages[x] == pages[y] ==> x == y
    requires forall x :: x in pages ==> x < MAX_N_SECTOR_READS && pages[x] < |s.pages|
    modifies scratch
    ensures Exacts(full, exact) && Records(full, exactVisited) && Noted(full0, full, MetOnPages(r, pages.Values))
  {
    hide Exacts, Records, Noted, MetOn, MetOnPages, Arrived;
    full, exactVisited := full0, exactVisited0;
    var left := pages.Keys;
    NoneArrived(r, pages, full0);
    while left != {}
      invariant left <= pages.Keys && Exacts(full, exact) && Records(full, exactVisited)
      invariant Noted(full0, full, MetOnPages(r, Arrived(pages, left)))
    {
      var b :| b in left;
      scratch[b] := s.disk(pages[b]);
      PageArrives(r, exact, pages, left, b);
      PageFits(s, exact, pages[b]);
      ghost var before := full;
      full, exactVisited := NotePage(s.pages[pages[b]], scratch[b], visited, exact, full, exactVisited);
      NotedFurther(full0, before, full, MetOnPages(r, Arrived(pages, left)), MetOn(s.pages[pages[b]], visited));
      left := left - {b};
    }
    AllArrived(pages);
  }

  lemma NoneArrived(r: Start, pages: map<nat, nat>, full: seq<Neighbor>)
    ensures Noted(full, full, MetOnPages(r, Arrived(pages, pages.Keys)))
  {
    assert Arrived(pages, pages.Keys) == {};
  }

  lemma AllArrived(pages: map<nat, nat>)
    ensures Arrived(pages, {}) == pages.Values
  {
  }

  lemma PageFits(s: Layout, exact: seq<real>, pid: nat)
    requires ExactOk(s, exact) && pid < |s.pages|
    ensures NoRepeats(s.pages[pid]) && |s.pages[pid]| <= |s.disk(pid).exact|
    ensures forall j :: 0 <= j < |s.pages[pid]| ==>
      s.pages[pid][j] < |exact| && s.disk(pid).exact[j] == exact[s.pages[pid][j]]
  {
    assert PageSearch.PageOk(s, pid);
  }

  /** What the batch adds to the notes. */
  lemma BatchNotes(r: Start, from: nat, to: nat, full0: seq<Neighbor>, full: seq<Neighbor>, full1: seq<Neighbor>,
                   full2: seq<Neighbor>)
    requires from <= to
    requires NotedFor(r, from, full0, full)
    requires Noted(full, full1, LookedUp(r, to) - LookedUp(r, from))
    requires Noted(full1, full2, MetOnPages(r, PagesRead(r, to) - PagesRead(r, from)))
    ensures NotedFor(r, to, full0, full2)
  {
    assert LookedUp(r, from) <= LookedUp(r, to) && PagesRead(r, from) <= PagesRead(r, to);
    forall u: nat {:trigger Occ(full2, u)}
      ensures Occ(full2, u) == Occ(full0, u) + Notes(r, to, u)
    {
      assert Occ(full, u) == Occ(full0, u) + Notes(r, from, u);
      assert Occ(full1, u) == Occ(full, u) + if u in LookedUp(r, to) - LookedUp(r, from) then 1 else 0;
    }
  }

  /** The refine phase. For every node it is known how often it is noted: once if it is looked up in memory, and once
      if it has been met and its page is read. */
  method RefinePages(s: Layout, vectors: seq<real>, memEmb: set<nat>, pool: seq<Neighbor>, embL: nat,
                     full0: seq<Neighbor>, exactVisited0: set<nat>, pageVisited0: set<nat>, visited: set<nat>,
                     scratch: array<Page>, sectorIdx0: nat)
      returns (full: seq<Neighbor>)
    requires ExactOk(s, vectors) && Distinct(pool) && embL <= |pool| && sectorIdx0 < MAX_N_SECTOR_READS
    requires forall i :: 0 <= i < |pool| ==> pool[i].id < |s.id2page|
    requires scratch.Length == MAX_N_SECTOR_READS && Exacts(full0, vectors) && Records(full0, exactVisited0)
    modifies scratch
    ensures Exacts(full, vectors)
    ensures var r := Start(s, memEmb, pool, exactVisited0, pageVisited0, visited);
      NotedFor(r, embL, full0, full)
  {
    ghost var r := Start(s, memEmb, pool, exactVisited0, pageVisited0, visited);
    hide Exacts, Records, Occ, NotedFor, PagesRead, LookedUp, Noted, MetOnPages, ExactOk, Open, Consistent;
    var lIdx, exactVisited, pageVisited, sectorIdx := 0, exactVisited0, pageVisited0, sectorIdx0;
    full := full0;
    ghost var start := sectorIdx0;
    NothingNoted(r, full0);
    StartFacts(r, vectors);
    while lIdx < embL
      invariant 0 <= lIdx <= embL && Exacts(full, vectors) && Records(full, exactVisited)
      invariant NotedFor(r, lIdx, full0, full)
      invariant pageVisited == pageVisited0 + PagesRead(r, lIdx) && sectorIdx == Buffer(start)
      decreases embL - lIdx
    {
      ghost var before := full;
      var to, b; ghost var start';
      to, b, start' := PlanPages(r, s, memEmb, pool, lIdx, embL, exactVisited, pageVisited, sectorIdx, start, full0,
        full);
      BatchInRange(r, vectors, b, lIdx, to);
      full, exactVisited := NoteCached(b.cached, vectors, full, exactVisited);
      ghost var full1 := full;
      full, exactVisited := NotePages(r, s, b.pages, visited, scratch, vectors, full, exactVisited);
      BatchNotes(r, lIdx, to, full0, before, full1, full);
      lIdx, pageVisited, sectorIdx, start := to, b.pageVisited, b.sectorIdx, start';
    }
  }

  lemma NothingNoted(r: Start, full: seq<Neighbor>)
    ensures NotedFor(r, 0, full, full)
    ensures r.pages0 == r.pages0 + PagesRead(r, 0)
  {
    assert PagesRead(r, 0) == {} && LookedUp(r, 0) == {};
    forall u: nat
      ensures Notes(r, 0, u) == 0
    {
    }
  }

  lemma StartFacts(r: Start, exact: seq<real>)
    requires ExactOk(r.store, exact) && Distinct(r.pool)
    requires forall i :: 0 <= i < |r.pool| ==> r.pool[i].id < |r.store.id2page|
    ensures StartOk(r)
  {
  }

  lemma BatchInRange(r: Start, exact: seq<real>, b: Batch, from: nat, to: nat)
    requires ExactOk(r.store, exact) && Planned(r, b, from, to)
    ensures forall u :: u in b.cached ==> u < |exact|
    ensures forall x :: x in b.pages ==> x < MAX_N_SECTOR_READS && b.pages[x] < |r.store.pages|
    ensures forall x, y :: x in b.pages && y in b.pages && b.pages[x] == b.pages[y] ==> x == y
    ensures NoRepeats(b.cached) && Members(b.cached) == LookedUp(r, to) - LookedUp(r, from)
    ensures b.pages.Values == PagesRead(r, to) - PagesRead(r, from) && b.pageVisited == r.pages0 + PagesRead(r, to)
  {
    forall u | u in b.cached
      ensures u < |exact|
    {
      assert u in Members(b.cached);
    }
    forall x | x in b.pages
      ensures b.pages[x] < |r.store.pages|
    {
      assert b.pages[x] in b.pages.Values;
      PagesExist(r, to, b.pages[x]);
    }
  }

  lemma PagesExist(r: Start, n: nat, pid: nat)
    requires Consistent(r.store) && pid in PagesRead(r, n)
    ensures pid < |r.store.pages|
  {
    var i :| 0 <= i < n && i < |r.pool| && Open(r, r.pool[i].id) && r.store.id2page[r.pool[i].id] == pid;
    assert OnPage(r.store, FrontierNode(r.pool[i].id, pid));
  }

  /** The end of a query: the refine phase and the results. */
  method Conclude(s: Layout, vectors: seq<real>, memEmb: set<nat>, pool: seq<Neighbor>, embL: nat,
                  full0: seq<Neighbor>, exactVisited0: set<nat>, pageVisited0: set<nat>, visited: set<nat>,
                  scratch: array<Page>, sectorIdx0: nat, k: nat)
      returns (ids: seq<nat>, distances: seq<real>, ghost full: seq<Neighbor>, ghost sorted: seq<Neighbor>)
    requires ExactOk(s, vectors) && Distinct(pool) && embL <= |pool| && sectorIdx0 < MAX_N_SECTOR_READS
    requires forall i :: 0 <= i < |pool| ==> pool[i].id < |s.id2page|
    requires scratch.Length == MAX_N_SECTOR_READS && Exacts(full0, vectors) && Records(full0, exactVisited0)
    modifies scratch
    ensures NotedFor(Start(s, memEmb, pool, exactVisited0, pageVisited0, visited), embL, full0, full)
    ensures Exacts(full, vectors) && multiset(sorted) == multiset(full) && Sorted(sorted)
    ensures ids == IdsOf(Copied(sorted, k)) && NearestFirst(sorted, Copied(sorted, k), k)
    ensures |distances| == |ids| && forall t :: 0 <= t < |ids| ==> ids[t] < |vectors| && distances[t] == vectors[ids[t]]
    ensures !TiedTwice(full) ==> NoRepeats(ids)
  {
    hide ExactOk, NotedFor, TiedTwice, Copied, NearestFirst, Records;
    var notes := RefinePages(s, vectors, memEmb, pool, embL, full0, exactVisited0, pageVisited0, visited, scratch,
      sectorIdx0);
    full := notes;
    ids, distances, sorted := TopResults(notes, k);
    CopiedNearest(sorted, k);
    ExactsOneNote(full, vectors);
    RepeatsIff(full);
    hide Exacts;
    forall t | 0 <= t < |ids|
      ensures ids[t] < |vectors| && distances[t] == vectors[ids[t]]
    {
      var i := CopiedFrom(sorted, k, t);
      ExactIn(full, sorted, vectors, i);
    }
  }

  lemma ExactIn(full: seq<Neighbor>, sorted: seq<Neighbor>, exact: seq<real>, i: nat)
    requires Exacts(full, exact) && multiset(sorted) == multiset(full) && i < |sorted|
    ensures sorted[i].id < |exact| && sorted[i].distance == exact[sorted[i].id]
  {
    assert sorted[i] in multiset(full);
  }

  // Which nodes are noted twice.

  /** A node is looked up in memory, and a later entry of its page has no vector in memory. */
  ghost predicate ReadLater(r: Start, n: nat, u: nat) {
    exists i, j {:trigger FromMemory(r, i), r.pool[j]} ::
      && 0 <= i < j < n && j < |r.pool| && FromMemory(r, i) && r.pool[i].id == u
      && Open(r, r.pool[j].id) && r.pool[j].id !in r.memEmb && r.store.id2page[r.pool[j].id] == r.store.id2page[u]
  }

  /** No node is noted more than twice in the refine phase, and a node is noted twice exactly if it has been met, is
      looked up in memory, and stands in the list before an entry of its page that has to be read. */
  lemma NotedTwiceIff(r: Start, n: nat, full0: seq<Neighbor>, full: seq<Neighbor>, u: nat)
    requires StartOk(r) && NotedFor(r, n, full0, full)
    ensures Occ(full, u) <= Occ(full0, u) + 2
    ensures Occ(full, u) == Occ(full0, u) + 2 <==> u in r.visited && ReadLater(r, n, u)
  {
    assert Occ(full, u) == Occ(full0, u) + Notes(r, n, u);
    if u in LookedUp(r, n) && WithPage(r, u, PagesRead(r, n)) {
      var i :| 0 <= i < n && FromMemory(r, i) && r.pool[i].id == u;
      var j :| 0 <= j < n && j < |r.pool| && Open(r, r.pool[j].id) && r.pool[j].id !in r.memEmb &&
        r.store.id2page[r.pool[j].id] == r.store.id2page[u];
      assert j >= i;
      assert ReadLater(r, n, u);
    }
    if u in r.visited && ReadLater(r, n, u) {
      var i, j :| 0 <= i < j < n && j < |r.pool| && FromMemory(r, i) && r.pool[i].id == u &&
        Open(r, r.pool[j].id) && r.pool[j].id !in r.memEmb &&
        r.store.id2page[r.pool[j].id] == r.store.id2page[u];
      assert u in LookedUp(r, n) && r.store.id2page[u] in PagesRead(r, n);
    }
  }

  /** No node is noted more than twice, and exactly those of which that is known are. */
  ghost predicate TwiceExactly(r: Start, n: nat, full: seq<Neighbor>) {
    forall u: nat {:trigger Occ(full, u)} ::
      Occ(full, u) <= 2 && (Occ(full, u) == 2 <==> u in r.visited && ReadLater(r, n, u))
  }

  lemma NotedExactly(r: Start, n: nat, full0: seq<Neighbor>, full: seq<Neighbor>)
    requires StartOk(r) && NotedFor(r, n, full0, full) && Records(full0, r.exact0) && Distinct(full0)
    requires forall v :: v in r.exact0 && v < |r.store.id2page| ==> r.store.id2page[v] in r.pages0
    ensures TwiceExactly(r, n, full)
  {
    forall u: nat {:trigger Occ(full, u)}
      ensures Occ(full, u) <= 2 && (Occ(full, u) == 2 <==> u in r.visited && ReadLater(r, n, u))
    {
      NotedTwiceIff(r, n, full0, full, u);
      OccOnce(full0, u);
      assert Occ(full, u) == Occ(full0, u) + Notes(r, n, u);
      assert u in r.exact0 <==> Occ(full0, u) > 0;
      if u in r.exact0 {
        NotOpen(r, n, u);
      }
    }
  }

  /** A node noted in the traversal is not noted again. */
  lemma NotOpen(r: Start, n: nat, u: nat)
    requires u in r.exact0 && (u < |r.store.id2page| ==> r.store.id2page[u] in r.pages0)
    ensures Notes(r, n, u) == 0
  {
  }

  lemma OccOnce(full: seq<Neighbor>, u: nat)
    requires Distinct(full)
    ensures Occ(full, u) <= 1
  {
    var ids := IdsOf(full);
    if u in ids {
      var a :| 0 <= a < |ids| && ids[a] == u;
      assert ids == ids[..a] + [u] + ids[a + 1..];
      assert u !in ids[..a] && u !in ids[a + 1..];
    }
  }

  /** Exact notes of a node are all the same. */
  lemma ExactsOneNote(full: seq<Neighbor>, exact: seq<real>)
    requires Exacts(full, exact)
    ensures OneNote(full)
  {
  }

  /** Two nodes on one page, equally far from the query, the nearer entry with its vector in memory: it is noted
      twice, and as far away as the other. */
  method TiedRefine() returns (full: seq<Neighbor>)
    ensures OneNote(full) && TiedTwice(full)
  {
    var s := Layout([[0, 1]], [0, 0], (pid: nat) => Page([1.0, 1.0], [[], []]), map[], []);
    var pool := [Neighbor(0, 1.0, false), Neighbor(1, 1.0, false)];
    var scratch := new Page[MAX_N_SECTOR_READS];
    TiedOk(s);
    full := RefinePages(s, [1.0, 1.0], {0}, pool, 2, [], {}, {}, {0, 1}, scratch, 0);
    ExactsOneNote(full, [1.0, 1.0]);
    TiedNotes(Start(s, {0}, pool, {}, {}, {0, 1}), full);
  }

  lemma TiedOk(s: Layout)
    requires s.pages == [[0, 1]] && s.id2page == [0, 0] && s.memPos == map[] && s.memGraph == []
    requires s.disk(0) == Page([1.0, 1.0], [[], []])
    ensures ExactOk(s, [1.0, 1.0])
  {
    assert s.pages[0][0] == 0 && s.pages[0][1] == 1;
    assert PageSearch.PageOk(s, 0);
  }

  lemma TiedNotes(r: Start, full: seq<Neighbor>)
    requires r.store.pages == [[0, 1]] && r.store.id2page == [0, 0] && r.memEmb == {0} && r.exact0 == r.pages0 == {}
    requires r.pool == [Neighbor(0, 1.0, false), Neighbor(1, 1.0, false)] && r.visited == {0, 1}
    requires Exacts(full, [1.0, 1.0]) && NotedFor(r, 2, [], full)
    ensures TiedTwice(full)
  {
    assert PagesRead(r, 0) == {};
    assert FromMemory(r, 0) && Open(r, r.pool[1].id);
    assert 0 in LookedUp(r, 2) && 0 in PagesRead(r, 2) by {
      assert r.pool[0].id == 0 && r.pool[1].id == 1;
    }
    assert Notes(r, 2, 0) == 2 && Notes(r, 2, 1) >= 1;
    assert Occ(full, 0) >= 2 && Occ(full, 1) >= 1;
    var x, y := Neighbor(0, 1.0, true), Neighbor(1, 1.0, true);
    NotesOf(full, [1.0, 1.0], 0);
    NotesOf(full, [1.0, 1.0], 1);
    assert multiset(full)[x] >= 2 && y in multiset(full);
  }

  lemma {:induction false} NotesOf(full: seq<Neighbor>, exact: seq<real>, u: nat)
    requires Exacts(full, exact) && u < |exact|
    ensures multiset(full)[Neighbor(u, exact[u], true)] == Occ(full, u)
  {
    if full != [] {
      var n := |full| - 1;
      assert full == full[..n] + [full[n]];
      NotesOf(full[..n], exact, u);
      OccMore(full[..n], full[n]);
    }
  }

  // A query from its first read to its answer.

  /** The notes of the traversal. */
  lemma TraversalNotes(search: Search, vectors: seq<real>)
    requires search.Valid() && ExactOk(search.store, vectors)
    ensures Exacts(search.fullRetset, vectors) && Distinct(search.fullRetset)
    ensures forall k :: 0 <= k < |search.fullRetset| ==>
      && search.fullRetset[k].id < |search.store.id2page|
      && search.store.id2page[search.fullRetset[k].id] in search.pageVisited
  {
    search.StoreFacts();
    search.RequestedPages();
    hide Search.Valid, Consistent;
    forall k | 0 <= k < |search.fullRetset|
      ensures search.fullRetset[k] ==
        Neighbor(search.fullRetset[k].id, vectors[search.fullRetset[k].id], true)
      ensures search.store.id2page[search.fullRetset[k].id] in search.pageVisited
    {
      var s, e := search.store, search.fullRetset[k];
      assert NoteOk(s, e) && PageTaken(search.pipe.flow, search.pipe.nodes, s.id2page[e.id]);
      var n: nat :| n < |search.pipe.nodes| && search.pipe.nodes[n].pid == s.id2page[e.id];
    }
  }

  lemma RecordedIds(full: seq<Neighbor>)
    ensures Records(full, NotedNodes(full))
  {
    var ids := IdsOf(full);
    forall u: nat
      ensures u in NotedNodes(full) <==> Occ(full, u) > 0
    {
      assert Occ(full, u) > 0 <==> u in ids;
      if u in ids {
        var i :| 0 <= i < |ids| && ids[i] == u;
        assert full[i] in full && full[i].id == u;
      }
      if e: Neighbor :| e in full && e.id == u {
        var i :| 0 <= i < |full| && full[i] == e;
        assert ids[i] == u;
      }
    }
  }

  /** `k` noted nodes with their exact distances, ascending, and no other node noted is nearer; no node twice, unless
      one noted twice is tied. */
  ghost predicate AnswerOk(full: seq<Neighbor>, exact: seq<real>, ids: seq<nat>, distances: seq<real>, k: nat) {
    && |ids| == |distances| == k && (!TiedTwice(full) ==> NoRepeats(ids))
    && (forall t :: 0 <= t < k ==> ids[t] < |exact| && distances[t] == exact[ids[t]] && Occ(full, ids[t]) > 0)
    && (forall t, u :: 0 <= t <= u < k ==> distances[t] <= distances[u])
    && forall v: nat, t :: Occ(full, v) > 0 && v !in ids && v < |exact| && 0 <= t < k ==> distances[t] <= exact[v]
  }

  lemma NotedNode(full: seq<Neighbor>, sorted: seq<Neighbor>, v: nat) returns (i: nat)
    requires multiset(sorted) == multiset(full) && Occ(full, v) > 0
    ensures i < |sorted| && sorted[i].id == v
  {
    var j :| 0 <= j < |full| && IdsOf(full)[j] == v;
    assert full[j] in multiset(sorted);
    i :| 0 <= i < |sorted| && sorted[i] == full[j];
  }

  lemma NodeNoted(full: seq<Neighbor>, sorted: seq<Neighbor>, i: nat)
    requires multiset(sorted) == multiset(full) && i < |sorted|
    ensures Occ(full, sorted[i].id) > 0
  {
    assert sorted[i] in multiset(full);
    var j :| 0 <= j < |full| && full[j] == sorted[i];
    assert IdsOf(full)[j] == sorted[i].id;
  }

  lemma AnswerFrom(full: seq<Neighbor>, sorted: seq<Neighbor>, exact: seq<real>, ids: seq<nat>, distances: seq<real>,
                   k: nat)
    requires Exacts(full, exact) && multiset(sorted) == multiset(full) && Sorted(sorted)
    requires ids == IdsOf(Copied(sorted, k)) && NearestFirst(sorted, Copied(sorted, k), k) && |distances| == |ids| == k
    requires forall t :: 0 <= t < |ids| ==> ids[t] < |exact| && distances[t] == exact[ids[t]]
    requires !TiedTwice(full) ==> NoRepeats(ids)
    ensures AnswerOk(full, exact, ids, distances, k)
  {
    hide TiedTwice, Occ;
    var c := Copied(sorted, k);
    forall t | 0 <= t < k
      ensures Occ(full, ids[t]) > 0 && c[t].distance == distances[t]
    {
      var i := CopiedFrom(sorted, k, t);
      NodeNoted(full, sorted, i);
      ExactIn(full, sorted, exact, i);
    }
    forall v: nat, t | Occ(full, v) > 0 && v !in ids && v < |exact| && 0 <= t < k
      ensures distances[t] <= exact[v]
    {
      var i := NotedNode(full, sorted, v);
      ExactIn(full, sorted, exact, i);
      assert sorted[i].id !in IdsOf(c);
    }
  }

  /** An entry looked at is noted by the end, unless its page was asked for in the traversal and it was passed over
      then. */
  lemma EntryNoted(r: Start, n: nat, notes: seq<Neighbor>, full: seq<Neighbor>, i: nat)
    requires StartOk(r) && NotedFor(r, n, notes, full) && Records(notes, r.exact0) && i < n <= |r.pool|
    requires r.pool[i].id in r.visited
    ensures Occ(full, r.pool[i].id) > 0 <==>
      r.pool[i].id in r.exact0 || r.store.id2page[r.pool[i].id] !in r.pages0
  {
    var u := r.pool[i].id;
    assert u in r.exact0 <==> Occ(notes, u) > 0;
    assert Occ(full, u) == Occ(notes, u) + Notes(r, n, u);
    assert PagesRead(r, i) <= PagesRead(r, n);
    if Open(r, u) {
      assert FromMemory(r, i) ==> u in LookedUp(r, n);
      assert u !in r.memEmb ==> r.store.id2page[u] in PagesRead(r, n);
    }
  }

  /** The nodes noted. */
  ghost function NotedNodes(full: seq<Neighbor>): set<nat> {
    set e | e in full :: e.id
  }

  /** With fewer than `k` results copied there are fewer than `k` nodes noted. */
  lemma FewNoted(full: seq<Neighbor>, sorted: seq<Neighbor>, ids: seq<nat>, k: nat)
    requires multiset(sorted) == multiset(full) && ids == IdsOf(Copied(sorted, k)) && |ids| < k
    requires NearestFirst(sorted, Copied(sorted, k), k)
    ensures |NotedNodes(full)| < k
  {
    hide Copied;
    forall e | e in full
      ensures e.id in ids
    {
      assert e in multiset(sorted);
      var i :| 0 <= i < |sorted| && sorted[i] == e;
      assert sorted[i].id in IdsOf(Copied(sorted, k));
    }
    SubsetSize(NotedNodes(full), Members(ids));
    FewMembers(ids);
  }

  lemma {:induction false} FewMembers(ids: seq<nat>)
    ensures |Members(ids)| <= |ids|
  {
    if ids != [] {
      var n := |ids| - 1;
      FewMembers(ids[..n]);
      assert ids == ids[..n] + [ids[n]];
      assert Members(ids) == Members(ids[..n]) + {ids[n]};
    }
  }

  /** What is known of the notes of a query: those of the traversal, `notes`, are of pages read, and the refine phase
      adds what `NotedFor` says. */
  ghost predicate RefinedFrom(r: Start, embL: nat, notes: seq<Neighbor>, full: seq<Neighbor>, vectors: seq<real>) {
    && Distinct(notes) && NotedNodes(notes) == r.exact0 && NotedFor(r, embL, notes, full)
    && TwiceExactly(r, embL, full) && Exacts(full, vectors)
    && forall i {:trigger r.pool[i]} :: 0 <= i < embL <= |r.pool| && r.pool[i].id < |r.store.id2page| ==>
         (Occ(full, r.pool[i].id) > 0 <==>
           r.pool[i].id in r.exact0 || r.store.id2page[r.pool[i].id] !in r.pages0)
  }

  /** The end of a query whose traversal is complete. */
  method Refined(search: Search, vectors: seq<real>, memEmb: set<nat>, exactVisited: set<nat>, embL: nat, k: nat,
                 ghost r: Start)
      returns (answer: Answer, ghost full: seq<Neighbor>)
    requires search.Valid() && ExactOk(search.store, vectors) && embL <= search.l <= search.best.Length
    requires exactVisited == NotedNodes(search.fullRetset)
    requires r ==
      Start(search.store, memEmb, search.best[..search.l], exactVisited, search.pageVisited, search.visited)
    modifies search.pipe.scratch
    ensures RefinedFrom(r, embL, search.fullRetset, full, vectors)
    ensures answer.Found? || (answer.TooFew? && |NotedNodes(full)| < k)
    ensures answer.Found? ==> AnswerOk(full, vectors, answer.ids, answer.distances, k)
  {
    hide *;
    TraversalNotes(search, vectors);
    RecordedIds(search.fullRetset);
    SearchFacts(search);
    PoolOf(search.best[..search.l], search.visited, search.dist, search.L);
    StartFacts(r, vectors);
    var ids, distances;
    ghost var sorted, notes := [], search.fullRetset;
    ids, distances, full, sorted := Conclude(search.store, vectors, memEmb, search.best[..search.l], embL,
      search.fullRetset, exactVisited, search.pageVisited, search.visited, search.pipe.scratch, search.pipe.sectorIdx,
        k);
    RefinedFacts(r, vectors, embL, notes, full, search.dist, search.L);
    CopiedLength(sorted, k, ids);
    if |ids| < k {
      FewNoted(full, sorted, ids, k);
      answer := TooFew;
    } else {
      AnswerFrom(full, sorted, vectors, ids, distances, k);
      answer := Found(ids, distances);
    }
  }

  lemma RefinedFacts(r: Start, vectors: seq<real>, embL: nat, notes: seq<Neighbor>, full: seq<Neighbor>,
                     dist: seq<real>, L: nat)
    requires StartOk(r) && NotedFor(r, embL, notes, full) && Records(notes, r.exact0) && Distinct(notes)
    requires forall k :: 0 <= k < |notes| ==>
      notes[k].id < |r.store.id2page| && r.store.id2page[notes[k].id] in r.pages0
    requires Exacts(full, vectors) && r.exact0 == NotedNodes(notes) && PoolInvariant(r.pool, r.visited, dist, L)
    ensures RefinedFrom(r, embL, notes, full, vectors)
  {
    hide NotedFor, Records, TwiceExactly, Exacts, Occ;
    NotedExactly(r, embL, notes, full);
    forall i | 0 <= i < embL <= |r.pool| && r.pool[i].id < |r.store.id2page|
      ensures Occ(full, r.pool[i].id) > 0 <==>
        r.pool[i].id in r.exact0 || r.store.id2page[r.pool[i].id] !in r.pages0
    {
      EntryNoted(r, embL, notes, full, i);
    }
  }

  lemma CopiedLength(s: seq<Neighbor>, k: nat, ids: seq<nat>)
    requires ids == IdsOf(Copied(s, k))
    ensures |ids| <= k
  {
  }

  lemma PoolOf(pool: seq<Neighbor>, seen: set<nat>, dist: seq<real>, L: nat)
    requires PoolInvariant(pool, seen, dist, L)
    ensures Distinct(pool) && forall i :: 0 <= i < |pool| ==> pool[i].id < |dist|
  {
  }

  lemma NodesOf(full: seq<Neighbor>)
    ensures NotedNodes(full) == set e | e in full :: e.id
  {
  }

  lemma ExactFacts(s: Layout, exact: seq<real>)
    requires ExactOk(s, exact)
    ensures Consistent(s)
  {
  }

  lemma SearchFacts(search: Search)
    requires search.Valid()
    ensures search.l <= search.best.Length && |search.dist| == |search.store.id2page|
    ensures search.pipe.scratch.Length == MAX_N_SECTOR_READS && search.pipe.sectorIdx < MAX_N_SECTOR_READS
    ensures PoolInvariant(search.best[..search.l], search.visited, search.dist, search.L)
  {
  }

  /** One query of `page_search`. `notes` are those of the traversal, `full` all by the end, `r` is what the refine
      phase starts from, and the first `embL` entries of the list are to be looked at. */
  method Query(s: Layout, vectors: seq<real>, memEmb: set<nat>, dist: seq<real>, L: nat, beamWidth: nat, ioLimit: nat,
               ratio: real, seeds: seq<nat>, k: nat, embRatio: real)
      returns (answer: Answer, ios: nat, embL: nat, ghost r: Start, ghost notes: seq<Neighbor>,
               ghost full: seq<Neighbor>)
    requires ExactOk(s, vectors) && |dist| == |s.id2page| && 2 <= beamWidth <= MAX_N_SECTOR_READS && 0.0 <= embRatio
    requires 1 <= |seeds| <= L && NoRepeats(seeds) && forall v :: v in seeds ==> v < |dist|
    ensures answer.Interrupted? <==> ioLimit <= ios
    ensures answer.Overrun? ==> !FitsRing(beamWidth, beamWidth / 2) && MAX_N_SECTOR_READS < ios < ioLimit
    ensures PoolInvariant(r.pool, r.visited, dist, L) && Members(seeds) <= r.visited
    ensures k <= embL && |r.pool| as real * embRatio < embL as real + 1.0
    ensures k < embL ==> embL as real <= |r.pool| as real * embRatio
    ensures !answer.Interrupted? && !answer.Overrun? ==> (answer.BeyondList? <==> embL > |r.pool|)
    ensures FitsRing(beamWidth, beamWidth / 2) ==> ios <= |s.pages|
    ensures r == Start(s, memEmb, r.pool, r.exact0, r.pages0, r.visited)
    ensures !answer.Interrupted? && !answer.Overrun? ==>
      && (forall pid :: pid in r.pages0 ==> PageDone(s, Terms(dist, L, ratio, Members(seeds)), pid, r.visited, notes))
      && (forall i :: 0 <= i < |r.pool| ==> Sent(s, r.pool[i].id, [], r.visited, r.pages0))
    ensures answer.Found? || answer.TooFew? ==> RefinedFrom(r, embL, notes, full, vectors)
    ensures answer.TooFew? ==> |NotedNodes(full)| < k
    ensures answer.Found? ==> AnswerOk(full, vectors, answer.ids, answer.distances, k)
  {
    hide *;
    ExactFacts(s, vectors);
    var search := new Search(s, dist, L, beamWidth, ioLimit, ratio, seeds);
    ghost var flows;
    var end;
    end, flows := search.Traverse();
    search.PoolFacts();
    ios := search.pipe.numIos;
    var pool, found := search.best[..search.l], search.fullRetset;
    var exactVisited := set e | e in found :: e.id;
    NodesOf(found);
    r := Start(s, memEmb, pool, exactVisited, search.pageVisited, search.visited);
    notes, full := found, found;
    embL := RefineLength(|pool|, embRatio, k);
    match end {
      case UsedUp => answer := Interrupted;
      case Overrun => answer := Answer.Overrun;
      case Complete =>
        answer := BeyondList;
        if embL <= |pool| {
          answer, full := Refined(search, vectors, memEmb, exactVisited, embL, k, r);
        }
    }
  }

  // An entry of the list that is never looked at.

  /** Two nodes on one page, each the other's neighbour: whichever the page is read for, the other one is passed over,
      comes into the list as a neighbour, and is never looked at, though the refine phase covers the whole list. */
  method PassedOver() returns (answer: Answer, ghost r: Start, ghost full: seq<Neighbor>)
    ensures answer.Found? && |r.pool| == 2 && exists i :: 0 <= i < 2 && Occ(full, r.pool[i].id) == 0
  {
    hide RefinedFrom, PoolInvariant, PageDone, Sent, AnswerOk, ExactOk, NotedNodes, Occ, HasId;
    var s := Layout([[0, 1]], [0, 0], (pid: nat) => Page([5.0, 1.0], [[1], [0]]), map[], []);
    var dist, vectors := [1.0, 2.0], [5.0, 1.0];
    PairOk(s, vectors);
    var ios, embL; ghost var notes;
    answer, ios, embL, r, notes, full := Query(s, vectors, {}, dist, 2, 2, 10, 0.0, [0], 1, 1.0);
    var q := Terms(dist, 2, 0.0, Members([0]));
    var asked := PairVisited(r, q, notes);
    PairLength(embL);
    PairRefined(r, notes, full, vectors, asked);
  }

  ghost predicate IsPair(s: Layout) {
    && s.pages == [[0, 1]] && s.id2page == [0, 0] && s.memPos == map[] && s.memGraph == []
    && s.disk(0) == Page([5.0, 1.0], [[1], [0]])
  }

  ghost predicate PairTerms(q: Terms) {
    q.dist == [1.0, 2.0] && q.L == 2 && q.ratio == 0.0
  }

  /** A list of the pair that has met both nodes holds both, and one that has met node 0 holds it. */
  lemma PairPool(pool: seq<Neighbor>, seen: set<nat>, q: Terms)
    requires PairTerms(q) && PoolInvariant(pool, seen, q.dist, q.L) && 0 in seen
    ensures HasId(pool, 0) && (1 in seen ==> HasId(pool, 1) && |pool| == 2)
  {
    assert forall i :: 0 <= i < |pool| ==> pool[i].id == 0 || pool[i].id == 1;
    assert |pool| == 2 ==> pool[0].id != pool[1].id;
    assert HasId(pool, 0) && (1 in seen ==> HasId(pool, 1));
  }

  /** The page is read for one of its nodes, and that one alone is noted. */
  lemma PairAsked(s: Layout, q: Terms, visited: set<nat>, notes: seq<Neighbor>) returns (asked: nat)
    requires IsPair(s) && PairTerms(q) && PageDone(s, q, 0, visited, notes)
    ensures asked < 2 && HasId(notes, asked) && !HasId(notes, 1 - asked) && {asked, 1 - asked} <= visited
  {
    hide PoolInvariant;
    var fn: FrontierNode :| fn.pid == 0 && OnPage(s, fn) && TargetDone(s, q, fn, visited, notes);
    var v: Visit :| VisitDone(s, q, fn, v, visited, notes);
    asked := fn.id;
    var layout := s.pages[0];
    assert layout == [0, 1] && asked in layout;
    assert layout[asked] == asked && layout[1 - asked] == 1 - asked;
    assert v.pools[asked] == v.pools[asked] && v.pools[1 - asked] == v.pools[1 - asked];
    assert asked in v.slots && s.disk(0).lists[asked] == [1 - asked];
    assert 1 - asked in Members(s.disk(0).lists[asked]);
    assert !NearEnough(q, v.pools[1 - asked], 1 - asked);
    assert asked in v.seens[asked + 1] && v.seens[0] <= v.seens[1] <= v.seens[2];
  }

  lemma PairVisited(r: Start, q: Terms, notes: seq<Neighbor>) returns (asked: nat)
    requires IsPair(r.store) && PairTerms(q) && PoolInvariant(r.pool, r.visited, q.dist, q.L) && 0 in r.visited
    requires forall pid :: pid in r.pages0 ==> PageDone(r.store, q, pid, r.visited, notes)
    requires forall i :: 0 <= i < |r.pool| ==> Sent(r.store, r.pool[i].id, [], r.visited, r.pages0)
    ensures asked < 2 && HasId(notes, asked) && !HasId(notes, 1 - asked)
    ensures 0 in r.pages0 && |r.pool| == 2 && HasId(r.pool, 1 - asked)
  {
    PairPool(r.pool, r.visited, q);
    hide PoolInvariant;
    var i :| 0 <= i < |r.pool| && r.pool[i].id == 0;
    assert Sent(r.store, r.pool[i].id, [], r.visited, r.pages0);
    hide PageDone, HasId;
    asked := PairAsked(r.store, q, r.visited, notes);
    assert asked == 0 || asked == 1;
    assert 1 in {asked, 1 - asked};
  }

  lemma PairLength(embL: nat)
    requires 1 <= embL && 2 as real * 1.0 < embL as real + 1.0 && (1 < embL ==> embL as real <= 2 as real * 1.0)
    ensures embL == 2
  {
  }

  lemma NotedId(full: seq<Neighbor>, u: nat)
    ensures u in NotedNodes(full) <==> HasId(full, u)
  {
    if HasId(full, u) {
      var i :| 0 <= i < |full| && full[i].id == u;
      assert full[i] in full;
    }
    if e: Neighbor :| e in full && e.id == u {
      var i :| 0 <= i < |full| && full[i] == e;
    }
  }

  /** The node passed over is not looked at, but some node is noted. */
  lemma PairRefined(r: Start, notes: seq<Neighbor>, full: seq<Neighbor>, vectors: seq<real>, asked: nat)
    requires IsPair(r.store) && |r.pool| == 2 && RefinedFrom(r, 2, notes, full, vectors) && 0 in r.pages0
    requires asked < 2 && HasId(notes, asked) && !HasId(notes, 1 - asked) && HasId(r.pool, 1 - asked)
    ensures |NotedNodes(full)| >= 1 && exists i :: 0 <= i < 2 && Occ(full, r.pool[i].id) == 0
  {
    hide TwiceExactly, Exacts;
    NotedId(notes, asked);
    NotedId(notes, 1 - asked);
    var i :| 0 <= i < 2 && r.pool[i].id == 1 - asked;
    assert Occ(full, r.pool[i].id) == 0;
    RecordedIds(notes);
    RecordedIds(full);
    assert Occ(full, asked) == Occ(notes, asked) + Notes(r, 2, asked);
    assert asked in NotedNodes(full);
  }

  lemma PairOk(s: Layout, vectors: seq<real>)
    requires IsPair(s) && vectors == [5.0, 1.0]
    ensures ExactOk(s, vectors)
  {
    assert s.pages[0][0] == 0 && s.pages[0][1] == 1;
    assert PageSearch.PageOk(s, 0);
  }
}
