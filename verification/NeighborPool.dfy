/** The bounded, sorted candidate pool shared by all the searches: `Neighbor` and `InsertIntoPool`. */
module NeighborPool {

  datatype Neighbor = Neighbor(id: nat, distance: real, flag: bool)

  ghost predicate Sorted(s: seq<Neighbor>) {
    forall i, j :: 0 <= i <= j < |s| ==> s[i].distance <= s[j].distance
  }

  ghost predicate HasId(s: seq<Neighbor>, id: nat) {
    exists i :: 0 <= i < |s| && s[i].id == id
  }

  ghost predicate Distinct(s: seq<Neighbor>) {
    forall i, j :: 0 <= i < |s| && 0 <= j < |s| && s[i].id == s[j].id ==> i == j
  }

  /** The pool with `nn` put at position `r`. */
  ghost function Inserted(s: seq<Neighbor>, r: nat, nn: Neighbor): seq<Neighbor>
    requires r <= |s|
  {
    s[..r] + [nn] + s[r..]
  }

  /** `memmove` of the entries `from .. K` up by one place. */
  method MoveUp(addr: array<Neighbor>, from: nat, K: nat)
    requires from <= K < addr.Length
    modifies addr
    ensures addr[from + 1..K + 1] == old(addr[from..K])
    ensures addr[..from] == old(addr[..from]) && addr[K + 1..] == old(addr[K + 1..])
  {
    forall i | from < i <= K {
      addr[i] := addr[i - 1];
    }
  }

  method PutAt(addr: array<Neighbor>, K: nat, r: nat, nn: Neighbor)
    requires r <= K < addr.Length
    modifies addr
    ensures addr[..K + 1] == Inserted(old(addr[..K]), r, nn)
    ensures addr[K + 1..] == old(addr[K + 1..])
  {
    ghost var s := addr[..K];
    MoveUp(addr, r, K);
    addr[r] := nn;
    assert addr[..r] == s[..r] && addr[r + 1..K + 1] == s[r..];
    assert addr[..K + 1] == addr[..r] + [addr[r]] + addr[r + 1..K + 1];
  }

  lemma InsertedSorted(s: seq<Neighbor>, r: nat, nn: Neighbor)
    requires Sorted(s) && r <= |s|
    requires r > 0 ==> s[r - 1].distance <= nn.distance
    requires r < |s| ==> nn.distance <= s[r].distance
    ensures Sorted(Inserted(s, r, nn))
  {
  }

  /** An entry with this very id and distance is in the pool. */
  ghost predicate HasEntry(s: seq<Neighbor>, nn: Neighbor) {
    exists i :: 0 <= i < |s| && s[i].id == nn.id && s[i].distance == nn.distance
  }

  /** Binary search for the place, then a walk over the equal distances to the left in search of
      the same id; `K + 1` means that nothing was inserted. */
  method FindPlace(addr: array<Neighbor>, K: nat, nn: Neighbor) returns (r: nat)
    requires 1 <= K < addr.Length && Sorted(addr[..K])
    ensures r <= K + 1
    ensures r <= K ==>
      && (r > 0 ==> addr[r - 1].distance <= nn.distance)
      && (r < K ==> nn.distance <= addr[r].distance)
      && !HasEntry(addr[..K], nn)
    ensures r == K + 1 ==> HasId(addr[..K], nn.id)
    ensures r == K <==> addr[K - 1].distance < nn.distance
  {
    ghost var s := addr[..K];
    var left, right := 0, K - 1;
    if addr[left].distance > nn.distance {
      return left;
    }
    if addr[right].distance < nn.distance {
      return K;
    }
    while right > 1 && left < right - 1
      invariant 0 <= left <= right < K && (left == right ==> K == 1)
      invariant addr[left].distance <= nn.distance <= addr[right].distance
      invariant right == K - 1 || nn.distance < addr[right].distance
    {
      var mid := (left + right) / 2;
      if addr[mid].distance > nn.distance {
        right := mid;
      } else {
        left := mid;
      }
    }
    ghost var place := left;
    while left > 0
      invariant 0 <= left <= place
      invariant forall i :: left < i <= place ==> addr[i].id != nn.id
    {
      if addr[left].distance < nn.distance {
        break;
      }
      if addr[left].id == nn.id {
        assert s[left].id == nn.id;
        return K + 1;
      }
      left := left - 1;
    }
    if addr[left].id == nn.id || addr[right].id == nn.id {
      assert s[left].id == addr[left].id && s[right].id == addr[right].id;
      return K + 1;
    }
    assert forall i :: 0 <= i < left ==> s[i].distance <= s[left].distance;
    assert forall i :: right < i < |s| ==> s[right].distance <= s[i].distance;
    return right;
  }

  /** `InsertIntoPool(addr, K, nn)`: keep the `K` sorted entries sorted with `nn` among them. */
  method InsertIntoPool(addr: array<Neighbor>, K: nat, nn: Neighbor) returns (r: nat)
    requires 1 <= K < addr.Length && Sorted(addr[..K])
    modifies addr
    ensures r <= K + 1 && addr[K + 1..] == old(addr[K + 1..])
    ensures r == K + 1 ==> addr[..] == old(addr[..]) && HasId(addr[..K], nn.id)
    ensures old(HasEntry(addr[..K], nn)) ==> r == K + 1
    ensures r <= K ==> addr[..K + 1] == Inserted(old(addr[..K]), r, nn) && Sorted(addr[..K + 1])
  {
    r := FindPlace(addr, K, nn);
    if r <= K {
      InsertedSorted(addr[..K], r, nn);
      PutAt(addr, K, r, nn);
    }
  }
}
