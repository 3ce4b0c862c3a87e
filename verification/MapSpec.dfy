/** What clients expect of both hash tables: the answers of a finite map, and a refusal only where
    the table would have to grow beyond its limit. */
module MapSpec {
  import opened Bits
  import opened GrowthPolicy
  import opened HashLoad

  /** What a client can ask of a table, and what it is told. */
  datatype Op<K, V> =
    | InsertOp(key: K, value: V)
    | AssignOp(key: K, value: V)
    | EraseOp(key: K)
    | FindOp(key: K)
    | ClearOp
    | RehashOp(count: nat)
    | MaxLoadOp(factor: real)

  datatype Answer<V> = Done | Already | Absent | Value(value: V) | TooLarge

  /** Whether an insertion looks for its key before it considers growing, whether long probes make the
      table grow, and the highest load factor. */
  datatype Kind = Kind(looksFirst: bool, countsProbes: bool, highest: real)

  const ROBIN_KIND := Kind(true, true, 0.95)
  const SPARSE_KIND := Kind(false, false, 0.8)

  /** An insertion that had to probe far counts from this load on. */
  const HIGH_PROBES_MIN_LOAD: real := 0.15

  /** The bucket count, the load factor, and whether an insertion had to probe too far. */
  datatype Shape = Shape(buckets: nat, maxLoad: real, overProbed: bool)

  /** The next insertion of a new key makes the table grow. */
  ghost predicate DueToGrow(size: nat, s: Shape)
    requires 0.0 <= s.maxLoad
  {
    s.overProbed || Reaches(size, s.buckets, s.maxLoad)
  }

  /** The growth policy has no larger bucket count. */
  ghost predicate AtLimit(s: Shape) {
    s.buckets > MaxBucketCount() / 2
  }

  ghost function Doubled(buckets: nat): nat {
    if buckets == 0 then 2 else 2 * buckets
  }

  /** What an insertion does to the shape: `asks` is whether it considers growing. */
  ghost predicate Reshaped(kind: Kind, size: nat, s: Shape, asks: bool, s': Shape)
    requires 0.0 <= s.maxLoad
  {
    && s'.maxLoad == s.maxLoad
    && s'.buckets == (if asks && DueToGrow(size, s) then Doubled(s.buckets) else s.buckets)
    && (s'.overProbed ==>
         if asks then kind.countsProbes && size as real >= HIGH_PROBES_MIN_LOAD * s'.buckets as real else s.overProbed)
  }

  ghost predicate Refused<K, V>(kind: Kind, m: map<K, V>, s: Shape, k: K)
    requires 0.0 <= s.maxLoad
  {
    !(kind.looksFirst && k in m) && DueToGrow(|m|, s) && AtLimit(s)
  }

  ghost predicate RehashRefused(size: nat, s: Shape, count: nat)
    requires 0.0 < s.maxLoad
  {
    count > MaxBucketCount() || !Fits(size, MaxBucketCount(), s.maxLoad)
  }

  /** The same request put to a finite map, and what becomes of the shape. */
  ghost predicate MapStep<K, V>(kind: Kind, m: map<K, V>, s: Shape, op: Op<K, V>, a: Answer<V>, m': map<K, V>,
                                s': Shape) {
    s.maxLoad > 0.0 &&
    match op
    case InsertOp(k, v) =>
      if Refused(kind, m, s, k) then a == TooLarge && m' == m && s' == s
      else
        && (if k in m then a == Already && m' == m else a == Done && m' == m[k := v])
        && Reshaped(kind, |m|, s, !(kind.looksFirst && k in m), s')
    case AssignOp(k, v) =>
      if Refused(kind, m, s, k) then a == TooLarge && m' == m && s' == s
      else
        && a == (if k in m then Already else Done) && m' == m[k := v]
        && Reshaped(kind, |m|, s, !(kind.looksFirst && k in m), s')
    case EraseOp(k) => m' == m - {k} && a == (if k in m then Done else Absent) && s' == s
    case FindOp(k) => m' == m && a == (if k in m then Value(m[k]) else Absent) && s' == s
    case ClearOp => m' == map[] && a == Done && s' == s.(overProbed := false)
    case RehashOp(count) =>
      && m' == m
      && if RehashRefused(|m|, s, count) then a == TooLarge && s' == s
         else
           && a == Done && count <= s'.buckets && Fits(|m|, s'.buckets, s.maxLoad)
           && s'.maxLoad == s.maxLoad && !s'.overProbed
    case MaxLoadOp(f) => m' == m && a == Done && 0.1 <= kind.highest && s' == s.(maxLoad := ClampLoad(f, kind.highest))
  }

  ghost predicate MapRun<K, V>(kind: Kind, ms: seq<map<K, V>>, shapes: seq<Shape>, ops: seq<Op<K, V>>,
                               answers: seq<Answer<V>>) {
    && |ms| == |shapes| == |ops| + 1 && |answers| == |ops| && ms[0] == map[]
    && 0.1 <= shapes[0].maxLoad && !shapes[0].overProbed
    && forall i {:trigger ops[i]} :: 0 <= i < |ops| ==>
         MapStep(kind, ms[i], shapes[i], ops[i], answers[i], ms[i + 1], shapes[i + 1])
  }

  lemma ExtendRun<K, V>(kind: Kind, ms: seq<map<K, V>>, shapes: seq<Shape>, ops: seq<Op<K, V>>, answers: seq<Answer<V>>,
                        op: Op<K, V>, a: Answer<V>, m: map<K, V>, s: Shape)
    requires MapRun(kind, ms, shapes, ops, answers) && MapStep(kind, ms[|ops|], shapes[|ops|], op, a, m, s)
    ensures MapRun(kind, ms + [m], shapes + [s], ops + [op], answers + [a])
  {
  }

  lemma {:induction false} ShapesOk<K, V>(kind: Kind, ms: seq<map<K, V>>, shapes: seq<Shape>, ops: seq<Op<K, V>>,
                                          answers: seq<Answer<V>>, i: nat)
    requires MapRun(kind, ms, shapes, ops, answers) && i <= |ops| && kind.highest >= 0.1
    ensures 0.1 <= shapes[i].maxLoad && (shapes[i].overProbed ==> kind.countsProbes)
  {
    if i > 0 {
      ShapesOk(kind, ms, shapes, ops, answers, i - 1);
      assert MapStep(kind, ms[i - 1], shapes[i - 1], ops[i - 1], answers[i - 1], ms[i], shapes[i]);
    }
  }

  lemma Limit()
    ensures MaxBucketCount() == 0x8000_0000_0000_0000
  {
    var k: nat := 7;
    assert Pow2(k) == 128;
    hide Pow2;
    Pow2Add(k, k);
    Pow2Add(2 * k, k);
    Pow2Add(3 * k, 3 * k);
    Pow2Add(6 * k, 3 * k);
  }

  /** A table whose growth depends on its size alone refuses no insertion before it is very large: a tenth
      of two to the power of 62. */
  lemma SmallIsNeverRefused<K, V>(kind: Kind, ms: seq<map<K, V>>, shapes: seq<Shape>, ops: seq<Op<K, V>>,
                                  answers: seq<Answer<V>>, i: nat)
    requires MapRun(kind, ms, shapes, ops, answers) && i < |ops| && kind.highest >= 0.1 && !kind.countsProbes
    requires (|ms[i]| + 1) as real <= 0x4000_0000_0000_0000 as real * 0.1
    ensures ops[i].InsertOp? || ops[i].AssignOp? ==> answers[i] != TooLarge
  {
    ShapesOk(kind, ms, shapes, ops, answers, i);
    assert MapStep(kind, ms[i], shapes[i], ops[i], answers[i], ms[i + 1], shapes[i + 1]);
    if AtLimit(shapes[i]) {
      Limit();
      LoadGrows(0x4000_0000_0000_0000, shapes[i].buckets, 0.1, shapes[i].maxLoad);
    }
  }
}
