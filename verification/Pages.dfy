/** Pages of nodes together with the map that says in which page a node lies. */
module Pages {

  /** The pages from `first` on hold the nodes of `owned`, each at one place, where `id2pid` says. */
  ghost predicate HoldFrom(parts: seq<seq<nat>>, id2pid: map<nat, nat>, owned: set<nat>, first: nat) {
    && (forall p, j :: first <= p < |parts| && 0 <= j < |parts[p]| ==>
          parts[p][j] in owned && parts[p][j] in id2pid && id2pid[parts[p][j]] == p)
    && (forall p, i, j ::
         first <= p < |parts| && 0 <= i < |parts[p]| && 0 <= j < |parts[p]| && parts[p][i] == parts[p][j] ==> i == j)
    && (forall v :: v in owned ==> v in id2pid && first <= id2pid[v] < |parts| && v in parts[id2pid[v]])
  }

  ghost predicate Hold(parts: seq<seq<nat>>, id2pid: map<nat, nat>, owned: set<nat>) {
    HoldFrom(parts, id2pid, owned, 0)
  }

  lemma PlaceHolds(parts: seq<seq<nat>>, id2pid: map<nat, nat>, owned: set<nat>, first: nat, v: nat, pid: nat)
    requires HoldFrom(parts, id2pid, owned, first) && v !in owned && first <= pid < |parts|
    ensures HoldFrom(parts[pid := parts[pid] + [v]], id2pid[v := pid], owned + {v}, first)
  {
    var parts' := parts[pid := parts[pid] + [v]];
    assert parts'[pid][|parts[pid]|] == v;
    forall w | w in owned
      ensures w in parts'[id2pid[w]]
    {
      var j :| 0 <= j < |parts[id2pid[w]]| && parts[id2pid[w]][j] == w;
      assert parts'[id2pid[w]][j] == w;
    }
  }

  lemma OnePage(parts: seq<seq<nat>>, id2pid: map<nat, nat>, owned: set<nat>, p: nat, v: nat)
    requires Hold(parts, id2pid, owned) && p < |parts| && v in parts[p]
    ensures v in id2pid && id2pid[v] == p
  {
    var j :| 0 <= j < |parts[p]| && parts[p][j] == v;
  }
}
