/** `natural_number_set` and `natural_number_map`: containers of small numbers that keep a bitset
    beside a vector. */
module NaturalNumbers {
  import opened Sets

  lemma SeenTwice(s: seq<nat>, v: nat)
    requires v in s
    ensures !NoRepeats(s + [v])
  {
    var i :| 0 <= i < |s| && s[i] == v;
    assert (s + [v])[i] == (s + [v])[|s|];
  }

  /** The vector of the members, in the order of insertion, and a bit for each of them. */
  class NaturalSet {
    var values: seq<nat>
    var bits: seq<bool>

    ghost predicate Valid()
      reads this
    {
      && NoRepeats(values)
      && (forall v :: v in values ==> v < |bits| && bits[v])
      && (forall v :: 0 <= v < |bits| && bits[v] ==> v in values)
    }

    ghost function Elems(): set<nat>
      reads this
    {
      Members(values)
    }

    lemma Size()
      requires Valid()
      ensures |Elems()| == |values|
    {
      MembersSize(values);
    }

    constructor ()
      ensures Valid() && Elems() == {} && values == []
    {
      values, bits := [], [];
    }

    predicate IsEmpty()
      reads this
    {
      values == []
    }

    /** A member inserted again would be in the vector twice. */
    method Insert(id: nat)
      modifies this
      ensures values == old(values) + [id] && Elems() == old(Elems()) + {id}
      ensures old(Valid()) ==> (Valid() <==> id !in old(Elems()))
    {
      if id in values {
        SeenTwice(values, id);
      }
      values := values + [id];
      if id >= |bits| {
        bits := bits + seq(id + 1 - |bits|, _ => false);
      }
      bits := bits[id := true];
    }

    /** The member inserted last. */
    method PopAny() returns (id: nat)
      requires Valid() && !IsEmpty()
      modifies this
      ensures Valid() && id in old(Elems()) && Elems() == old(Elems()) - {id}
      ensures old(values) == values + [id]
    {
      ghost var was := values;
      id := values[|values| - 1];
      assert id in values;
      values := values[..|values| - 1];
      bits := bits[id := false];
      assert was == values + [id];
      assert id !in values;
      assert forall v :: v in was <==> v in values || v == id;
    }

    method Clear()
      modifies this
      ensures Valid() && Elems() == {} && values == []
    {
      values, bits := [], [];
    }

    /** `is_in_set`; a number beyond the bitset is not in the set. */
    predicate IsInSet(id: nat)
      requires Valid()
      ensures IsInSet(id) <==> id in Elems()
      reads this
    {
      id < |bits| && bits[id]
    }
  }

  /** `position`: the key, unless it is invalid, and how many keys were enumerated before it. */
  datatype Position = Invalid | At(key: nat, enumerated: nat)

  ghost function Ones(bits: seq<bool>, n: nat): set<nat> {
    set i | 0 <= i < n && i < |bits| && bits[i]
  }

  class NaturalMap<V(0)> {
    var size: nat
    var values: seq<V>
    var bits: seq<bool>

    ghost predicate Valid()
      reads this
    {
      |values| == |bits| && size == |Ones(bits, |bits|)|
    }

    ghost function Content(): map<nat, V>
      requires Valid()
      reads this
    {
      map i | 0 <= i < |bits| && bits[i] :: values[i]
    }

    lemma SizeIs()
      requires Valid()
      ensures |Content()| == size
    {
      assert Content().Keys == Ones(bits, |bits|);
    }

    constructor ()
      ensures Valid() && Content() == map[]
    {
      size, values, bits := 0, [], [];
    }

    method Set(key: nat, value: V, fill: V)
      requires Valid()
      modifies this
      ensures Valid() && Content() == old(Content())[key := value]
    {
      if key >= |bits| {
        var more := key + 1 - |bits|;
        bits, values := bits + seq(more, _ => false), values + seq(more, _ => fill);
      }
      values := values[key := value];
      var wasPresent := bits[key];
      bits := bits[key := true];
      if !wasPresent {
        size := size + 1;
        assert Ones(bits, |bits|) == Ones(old(bits), |old(bits)|) + {key};
      } else {
        assert Ones(bits, |bits|) == Ones(old(bits), |old(bits)|);
      }
    }

    method Erase(key: nat)
      requires Valid()
      modifies this
      ensures Valid() && Content() == old(Content()) - {key}
    {
      if key < |bits| {
        var wasPresent := bits[key];
        bits := bits[key := false];
        assert Ones(bits, |bits|) == Ones(old(bits), |old(bits)|) - {key};
        if wasPresent {
          size := size - 1;
        }
      }
    }

    predicate Contains(key: nat)
      requires Valid()
      ensures Contains(key) <==> key in Content()
      reads this
    {
      key < |bits| && bits[key]
    }

    method Clear()
      modifies this
      ensures Valid() && Content() == map[]
    {
      size, values, bits := 0, [], [];
    }

    /** `dynamic_bitset::find_next`, or `find_first` for `from == 0`: the first bit at or after. */
    method FindBit(from: nat) returns (i: nat)
      ensures from <= i && (i < |bits| ==> bits[i])
      ensures forall k :: from <= k < i && k < |bits| ==> !bits[k]
    {
      i := from;
      while i < |bits| && !bits[i]
        invariant from <= i && forall k :: from <= k < i && k < |bits| ==> !bits[k]
        decreases |bits| - i
      {
        i := i + 1;
      }
    }

    /** A valid position is at a key and knows the number of keys before it. */
    ghost predicate Proper(p: Position)
      requires Valid()
      reads this
    {
      p.At? ==> p.key in Content() && p.enumerated == |Ones(bits, p.key)|
    }

    method FindFirst() returns (p: Position)
      requires Valid()
      ensures Proper(p) && (p.Invalid? <==> Content() == map[])
      ensures p.At? ==> forall k :: k in Content() ==> p.key <= k
    {
      SizeIs();
      if size > 0 {
        var i := FindBit(0);
        if i < |bits| {
          assert Ones(bits, i) == {};
          return At(i, 0);
        }
      }
      return Invalid;
    }

    method FindNext(after: Position) returns (p: Position)
      requires Valid() && after.At? && Proper(after)
      ensures Proper(p) && (p.At? ==> p.key > after.key)
      ensures forall k :: k in Content() && k > after.key ==> p.At? && p.key <= k
    {
      if after.enumerated < size {
        var i := FindBit(after.key + 1);
        if i < |bits| {
          assert Ones(bits, i) == Ones(bits, after.key) + {after.key};
          return At(i, after.enumerated + 1);
        }
      } else {
        EnumeratedBelow(after.key);
        assert false;
      }
      return Invalid;
    }

    lemma EnumeratedBelow(key: nat)
      requires Valid() && key in Content()
      ensures |Ones(bits, key)| < size
    {
      var all := Ones(bits, |bits|);
      assert Ones(bits, key) <= all - {key};
      SubsetSize(Ones(bits, key), all - {key});
    }

    function Get(p: Position): V
      requires Valid() && p.At? && p.key < |values|
      reads this
    {
      values[p.key]
    }

    /** The loop that all the callers write: it meets every key once, in ascending order. */
    method Enumerate() returns (keys: seq<nat>)
      requires Valid()
      ensures forall i, j :: 0 <= i < j < |keys| ==> keys[i] < keys[j]
      ensures forall k :: k in keys <==> k in Content()
    {
      keys := [];
      var p := FindFirst();
      while p.At?
        invariant Proper(p)
        invariant forall i, j :: 0 <= i < j < |keys| ==> keys[i] < keys[j]
        invariant forall i :: 0 <= i < |keys| && p.At? ==> keys[i] < p.key
        invariant forall k :: k in keys ==> k in Content()
        invariant forall k :: k in Content() && k !in keys ==> p.At? && p.key <= k
        decreases if p.At? then |bits| - p.key else -1
      {
        keys := keys + [p.key];
        p := FindNext(p);
      }
    }
  }
}
