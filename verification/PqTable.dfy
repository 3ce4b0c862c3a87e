/** Distances to compressed vectors: looked up in a table made once per query, or computed directly,
    they are the distance from the query to the vector the code stands for. */
module PqTable {
  import opened PqChunks
  import opened Sets

  const NUM_PQ_CENTROIDS: nat := 256

  /** What a pivots file holds. The pivots are stored row by row, one row of `ndims` columns for each
      of the 256 centres; columns are in the rearranged order. */
  datatype Pivots = Pivots(ndims: nat, offsets: seq<nat>, rearrangement: seq<nat>, centroid: seq<real>,
    tables: seq<real>) {
    ghost predicate Valid() {
      && |offsets| >= 1 && offsets[0] == 0 && offsets[|offsets| - 1] == ndims
      && (forall b, c :: 0 <= b <= c < |offsets| ==> offsets[b] <= offsets[c])
      && |rearrangement| == |centroid| == ndims && NoRepeats(rearrangement)
      && (forall j :: 0 <= j < ndims ==> rearrangement[j] < ndims)
      && |tables| == NUM_PQ_CENTROIDS * ndims
    }

    function Chunks(): nat
      requires |offsets| >= 1
    {
      |offsets| - 1
    }
  }

  /** Where the table of a chunk, or of a column, has centre `i`. */
  function Cell(row: nat, i: nat): nat {
    NUM_PQ_CENTROIDS * row + i
  }

  /** The cells of a table of `rows` rows are different places. */
  lemma CellsDiffer(rows: nat)
    ensures forall j, i {:trigger Cell(j, i)} :: 0 <= j < rows && 0 <= i < NUM_PQ_CENTROIDS ==>
      Cell(j, i) < NUM_PQ_CENTROIDS * rows
    ensures forall j: nat, i: nat, k: nat, c: nat {:trigger Cell(j, i), Cell(k, c)} ::
      i < NUM_PQ_CENTROIDS && c < NUM_PQ_CENTROIDS && Cell(j, i) == Cell(k, c) ==> j == k && i == c
  {
  }

  function Square(x: real): (r: real)
    ensures r == x * x
  {
    x * x
  }

  lemma RowInRange(i: nat, j: nat, n: nat)
    requires i < NUM_PQ_CENTROIDS && j < n
    ensures i * n + j < NUM_PQ_CENTROIDS * n
  {
    assert i * n + n == (i + 1) * n;
    assert (i + 1) * n <= NUM_PQ_CENTROIDS * n;
  }

  /** Column `j` of centre `i`. */
  ghost function Pivot(p: Pivots, i: nat, j: nat): real
    requires p.Valid() && i < NUM_PQ_CENTROIDS && j < p.ndims
  {
    RowInRange(i, j, p.ndims);
    p.tables[i * p.ndims + j]
  }

  lemma PivotIs(p: Pivots, i: nat, j: nat)
    requires p.Valid() && i < NUM_PQ_CENTROIDS && j < p.ndims && i * p.ndims + j < NUM_PQ_CENTROIDS * p.ndims
    ensures |p.tables| == NUM_PQ_CENTROIDS * p.ndims && Pivot(p, i, j) == p.tables[i * p.ndims + j]
  {
  }

  /** The part of the squared distance that columns `from .. to` contribute if the code of their chunk
      is `i`. */
  ghost function Part(p: Pivots, q: seq<real>, i: nat, from: nat, to: nat): real
    requires p.Valid() && |q| == p.ndims && i < NUM_PQ_CENTROIDS && to <= p.ndims
  {
    if from >= to then 0.0
    else
      var d := p.rearrangement[to - 1];
      Part(p, q, i, from, to - 1) + Square(Pivot(p, i, to - 1) - (q[d] - p.centroid[d]))
  }

  ghost predicate IsCode(p: Pivots, code: seq<nat>)
    requires |p.offsets| >= 1
  {
    |code| == p.Chunks() && forall c :: 0 <= c < |code| ==> code[c] < NUM_PQ_CENTROIDS
  }

  /** The distance to a code by its first `n` chunks. */
  ghost function CodeDistance(p: Pivots, q: seq<real>, code: seq<nat>, n: nat): real
    requires p.Valid() && |q| == p.ndims && IsCode(p, code) && n <= p.Chunks()
  {
    if n == 0 then 0.0
    else CodeDistance(p, q, code, n - 1) + Part(p, q, code[n - 1], p.offsets[n - 1], p.offsets[n])
  }

  class FixedChunkPQTable {
    const pivots: Pivots
    /** The pivots column by column: 256 centres for each column. */
    const tablesT: seq<real>

    ghost predicate Valid() {
      && pivots.Valid() && |tablesT| == NUM_PQ_CENTROIDS * pivots.ndims
      && forall i, j {:trigger Pivot(pivots, i, j)} :: 0 <= i < NUM_PQ_CENTROIDS && 0 <= j < pivots.ndims ==>
           tablesT[Cell(j, i)] == Pivot(pivots, i, j)
    }

    constructor (p: Pivots)
      requires p.Valid()
      ensures Valid() && pivots == p
    {
      var t := Transpose(p);
      pivots, tablesT := p, t;
    }

    static method Transpose(p: Pivots) returns (t: seq<real>)
      requires p.Valid()
      ensures |t| == NUM_PQ_CENTROIDS * p.ndims
      ensures forall i, j {:trigger Pivot(p, i, j)} :: 0 <= i < NUM_PQ_CENTROIDS && 0 <= j < p.ndims ==>
        t[Cell(j, i)] == Pivot(p, i, j)
    {
      hide Pivot, Pivots.Valid;
      var a := new real[NUM_PQ_CENTROIDS * p.ndims];
      for i := 0 to NUM_PQ_CENTROIDS
        invariant forall c, j {:trigger Pivot(p, c, j)} :: 0 <= c < i && 0 <= j < p.ndims ==>
          a[Cell(j, c)] == Pivot(p, c, j)
      {
        TransposeRow(p, a, i);
      }
      t := a[..];
    }

    static method TransposeRow(p: Pivots, a: array<real>, i: nat)
      requires p.Valid() && a.Length == NUM_PQ_CENTROIDS * p.ndims && i < NUM_PQ_CENTROIDS
      modifies a
      ensures forall j {:trigger Pivot(p, i, j)} :: 0 <= j < p.ndims ==> a[Cell(j, i)] == Pivot(p, i, j)
      ensures forall c, j {:trigger Cell(j, c)} :: 0 <= c < NUM_PQ_CENTROIDS && c != i && 0 <= j < p.ndims ==>
        a[Cell(j, c)] == old(a[Cell(j, c)])
    {
      hide Pivot, Pivots.Valid, Cell;
      CellsDiffer(p.ndims);
      for j := 0 to p.ndims
        invariant forall k {:trigger Pivot(p, i, k)} :: 0 <= k < j ==> a[Cell(k, i)] == Pivot(p, i, k)
        invariant forall c, k {:trigger Cell(k, c)} :: 0 <= c < NUM_PQ_CENTROIDS && c != i && 0 <= k < p.ndims ==>
          a[Cell(k, c)] == old(a[Cell(k, c)])
      {
        RowInRange(i, j, p.ndims);
        PivotIs(p, i, j);
        var x := p.tables[i * p.ndims + j];
        a[Cell(j, i)] := x;
      }
    }

    /** `populate_chunk_distances`: for each chunk and each centre, what the chunk contributes. */
    method PopulateChunkDistances(q: seq<real>, distVec: array<real>)
      requires Valid() && |q| == pivots.ndims && distVec.Length == NUM_PQ_CENTROIDS * pivots.Chunks()
      modifies distVec
      ensures forall c :: 0 <= c < pivots.Chunks() ==> RowComplete(pivots, q, c, distVec[..])
    {
      hide Part, Square;
      for k := 0 to distVec.Length
        invariant forall i :: 0 <= i < k ==> distVec[i] == 0.0
      {
        distVec[k] := 0.0;
      }
      for chunk := 0 to pivots.Chunks()
        invariant forall c :: 0 <= c < chunk ==> RowComplete(pivots, q, c, distVec[..])
        invariant forall k :: NUM_PQ_CENTROIDS * chunk <= k < distVec.Length ==> distVec[k] == 0.0
      {
        RowBegun(pivots, q, chunk, distVec[..]);
        for j := pivots.offsets[chunk] to pivots.offsets[chunk + 1]
          invariant forall c :: 0 <= c < chunk ==> RowComplete(pivots, q, c, distVec[..])
          invariant RowDone(pivots, q, chunk, j, distVec[..])
          invariant forall k :: NUM_PQ_CENTROIDS * (chunk + 1) <= k < distVec.Length ==> distVec[k] == 0.0
        {
          ghost var before := distVec[..];
          AddColumn(q, distVec, chunk, j);
          forall c | 0 <= c < chunk
            ensures RowComplete(pivots, q, c, distVec[..])
          {
            assert RowComplete(pivots, q, c, before);
            SameRow(pivots, q, c, pivots.offsets[c + 1], before, distVec[..]);
          }
        }
      }
    }

    /** The innermost loop: one column, all centres. */
    method AddColumn(q: seq<real>, distVec: array<real>, chunk: nat, j: nat)
      requires Valid() && |q| == pivots.ndims && chunk < pivots.Chunks()
      requires distVec.Length == NUM_PQ_CENTROIDS * pivots.Chunks()
      requires pivots.offsets[chunk] <= j < pivots.ndims && RowDone(pivots, q, chunk, j, distVec[..])
      modifies distVec
      ensures RowDone(pivots, q, chunk, j + 1, distVec[..])
      ensures forall k ::
        0 <= k < distVec.Length && (k < NUM_PQ_CENTROIDS * chunk || k >= NUM_PQ_CENTROIDS * (chunk + 1)) ==>
          distVec[k] == old(distVec[k])
    {
      hide Square;
      var d := pivots.rearrangement[j];
      for idx := 0 to NUM_PQ_CENTROIDS
        invariant forall i {:trigger Cell(chunk, i)} :: 0 <= i < NUM_PQ_CENTROIDS ==>
          distVec[Cell(chunk, i)] == Part(pivots, q, i, pivots.offsets[chunk], if i < idx then j + 1 else j)
        invariant forall k ::
          0 <= k < distVec.Length && (k < NUM_PQ_CENTROIDS * chunk || k >= NUM_PQ_CENTROIDS * (chunk + 1)) ==>
            distVec[k] == old(distVec[k])
      {
        assert tablesT[Cell(j, idx)] == Pivot(pivots, idx, j);
        var diff := tablesT[Cell(j, idx)] - (q[d] - pivots.centroid[d]);
        distVec[Cell(chunk, idx)] := distVec[Cell(chunk, idx)] + Square(diff);
      }
    }

    /** `l2_distance` */
    method L2Distance(q: seq<real>, code: seq<nat>) returns (res: real)
      requires Valid() && |q| == pivots.ndims && IsCode(pivots, code)
      ensures res == CodeDistance(pivots, q, code, pivots.Chunks())
    {
      res := 0.0;
      for chunk := 0 to pivots.Chunks()
        invariant res == CodeDistance(pivots, q, code, chunk)
      {
        for j := pivots.offsets[chunk] to pivots.offsets[chunk + 1]
          invariant res == CodeDistance(pivots, q, code, chunk) + Part(pivots, q, code[chunk], pivots.offsets[chunk], j)
        {
          var d := pivots.rearrangement[j];
          assert tablesT[Cell(j, code[chunk])] == Pivot(pivots, code[chunk], j);
          var diff := tablesT[Cell(j, code[chunk])] - (q[d] - pivots.centroid[d]);
          res := res + Square(diff);
        }
      }
    }

    /** `inflate_vector`: the vector the code stands for. */
    method Inflate(code: seq<nat>, out: array<real>)
      requires Valid() && IsCode(pivots, code) && out.Length == pivots.ndims
      modifies out
      ensures Inflated(pivots, code, out[..], pivots.Chunks())
    {
      for chunk := 0 to pivots.Chunks()
        invariant Inflated(pivots, code, out[..], chunk)
      {
        for j := pivots.offsets[chunk] to pivots.offsets[chunk + 1]
          invariant Inflated(pivots, code, out[..], chunk)
          invariant InflatedPart(pivots, code[chunk], pivots.offsets[chunk], j, out[..])
        {
          var d := pivots.rearrangement[j];
          ghost var x := out[..];
          assert tablesT[Cell(j, code[chunk])] == Pivot(pivots, code[chunk], j);
          InflateOne(pivots, code, chunk, j, x);
          out[d] := tablesT[Cell(j, code[chunk])] + pivots.centroid[d];
          assert out[..] == x[d := Pivot(pivots, code[chunk], j) + pivots.centroid[d]];
        }
      }
    }
  }

  /** The row of chunk `c` in the table, when its columns before `to` have been added. */
  ghost predicate RowDone(p: Pivots, q: seq<real>, c: nat, to: nat, dists: seq<real>)
    requires p.Valid() && |q| == p.ndims && c < p.Chunks() && to <= p.ndims
  {
    forall i {:trigger Cell(c, i)} :: 0 <= i < NUM_PQ_CENTROIDS ==>
      Cell(c, i) < |dists| && dists[Cell(c, i)] == Part(p, q, i, p.offsets[c], to)
  }

  ghost predicate RowComplete(p: Pivots, q: seq<real>, c: nat, dists: seq<real>)
    requires p.Valid() && |q| == p.ndims && c < p.Chunks()
  {
    RowDone(p, q, c, p.offsets[c + 1], dists)
  }

  lemma RowBegun(p: Pivots, q: seq<real>, c: nat, dists: seq<real>)
    requires p.Valid() && |q| == p.ndims && c < p.Chunks() && |dists| == NUM_PQ_CENTROIDS * p.Chunks()
    requires forall k :: NUM_PQ_CENTROIDS * c <= k < |dists| ==> dists[k] == 0.0
    ensures RowDone(p, q, c, p.offsets[c], dists)
  {
  }

  lemma SameRow(p: Pivots, q: seq<real>, c: nat, to: nat, before: seq<real>, dists: seq<real>)
    requires p.Valid() && |q| == p.ndims && c < p.Chunks() && to <= p.ndims && RowDone(p, q, c, to, before)
    requires |dists| == |before| == NUM_PQ_CENTROIDS * p.Chunks()
    requires forall k :: 0 <= k < NUM_PQ_CENTROIDS * (c + 1) ==> dists[k] == before[k]
    ensures RowDone(p, q, c, to, dists)
  {
    hide Part;
  }

  /** The columns `from .. to` of the vector, if the code of their chunk is `i`. */
  ghost predicate InflatedPart(p: Pivots, i: nat, from: nat, to: nat, x: seq<real>)
    requires p.Valid() && i < NUM_PQ_CENTROIDS && to <= p.ndims == |x|
  {
    forall j {:trigger p.rearrangement[j]} :: from <= j < to ==>
      x[p.rearrangement[j]] == Pivot(p, i, j) + p.centroid[p.rearrangement[j]]
  }

  ghost predicate Inflated(p: Pivots, code: seq<nat>, x: seq<real>, n: nat)
    requires p.Valid() && IsCode(p, code) && |x| == p.ndims && n <= p.Chunks()
  {
    forall c {:trigger code[c]} :: 0 <= c < n ==> InflatedPart(p, code[c], p.offsets[c], p.offsets[c + 1], x)
  }

  lemma InflateOne(p: Pivots, code: seq<nat>, chunk: nat, j: nat, x: seq<real>)
    requires p.Valid() && IsCode(p, code) && |x| == p.ndims && chunk < p.Chunks()
    requires p.offsets[chunk] <= j < p.offsets[chunk + 1]
    requires Inflated(p, code, x, chunk) && InflatedPart(p, code[chunk], p.offsets[chunk], j, x)
    ensures var d := p.rearrangement[j];
      var x' := x[d := Pivot(p, code[chunk], j) + p.centroid[d]];
      Inflated(p, code, x', chunk) && InflatedPart(p, code[chunk], p.offsets[chunk], j + 1, x')
  {
    var d := p.rearrangement[j];
    var x' := x[d := Pivot(p, code[chunk], j) + p.centroid[d]];
    forall c {:trigger code[c]} | 0 <= c < chunk
      ensures InflatedPart(p, code[c], p.offsets[c], p.offsets[c + 1], x')
    {
      assert InflatedPart(p, code[c], p.offsets[c], p.offsets[c + 1], x);
      assert p.offsets[c + 1] <= p.offsets[chunk];
    }
  }

  // Batched lookup.

  /** Row `i` of a matrix stored row by row. */
  ghost function Row(codes: seq<nat>, n: nat, i: nat): seq<nat>
    requires i * n + n <= |codes|
  {
    codes[i * n..i * n + n]
  }

  lemma RowsFit(i: nat, rows: nat, n: nat)
    requires i < rows
    ensures i * n + n <= rows * n
  {
    assert i * n + n == (i + 1) * n;
    assert (i + 1) * n <= rows * n;
  }

  /** `aggregate_coords`: the codes of the given points, one after the other. */
  method AggregateCoords(ids: seq<nat>, allCoords: seq<nat>, rows: nat, n: nat) returns (out: seq<nat>)
    requires |allCoords| == rows * n && forall i :: 0 <= i < |ids| ==> ids[i] < rows
    ensures |out| == |ids| * n
    ensures forall i :: 0 <= i < |ids| ==>
      i * n + n <= |out| && ids[i] * n + n <= |allCoords| && Row(out, n, i) == Row(allCoords, n, ids[i])
  {
    out := [];
    for i := 0 to |ids|
      invariant |out| == i * n
      invariant forall k :: 0 <= k < i ==>
        k * n + n <= |out| && ids[k] * n + n <= |allCoords| && Row(out, n, k) == Row(allCoords, n, ids[k])
    {
      RowsFit(ids[i], rows, n);
      ghost var before := out;
      out := out + allCoords[ids[i] * n..ids[i] * n + n];
      forall k | 0 <= k < i + 1
        ensures k * n + n <= |out| && ids[k] * n + n <= |allCoords| && Row(out, n, k) == Row(allCoords, n, ids[k])
      {
        if k < i {
          assert Row(out, n, k) == Row(before, n, k);
        } else {
          assert Row(out, n, i) == allCoords[ids[i] * n..ids[i] * n + n];
        }
      }
      assert |out| == (i + 1) * n;
    }
  }

  /** The table entries of a code, added up. */
  ghost function LookupSum(dists: seq<real>, code: seq<nat>, n: nat): real
    requires n <= |code| && |dists| >= NUM_PQ_CENTROIDS * n && forall c :: 0 <= c < n ==> code[c] < NUM_PQ_CENTROIDS
  {
    if n == 0 then 0.0 else LookupSum(dists, code, n - 1) + dists[Cell(n - 1, code[n - 1])]
  }

  ghost predicate Codes(pqIds: seq<nat>, nPts: nat, chunks: nat, dists: seq<real>) {
    |pqIds| == nPts * chunks && |dists| == NUM_PQ_CENTROIDS * chunks && forall k :: 0 <= k < |pqIds| ==>
      pqIds[k] < NUM_PQ_CENTROIDS
  }

  /** What the first `n` chunks of point `i` add up to. */
  ghost function PointSum(pqIds: seq<nat>, nPts: nat, chunks: nat, dists: seq<real>, i: nat, n: nat): real
    requires Codes(pqIds, nPts, chunks, dists) && i < nPts && n <= chunks
  {
    RowsFit(i, nPts, chunks);
    LookupSum(dists, Row(pqIds, chunks, i), n)
  }

  /** `pq_dist_lookup`: chunk by chunk, all points. */
  method PqDistLookup(pqIds: seq<nat>, nPts: nat, chunks: nat, dists: seq<real>) returns (out: seq<real>)
    requires Codes(pqIds, nPts, chunks, dists)
    ensures |out| == nPts
    ensures forall i :: 0 <= i < nPts ==>
      i * chunks + chunks <= |pqIds| && out[i] == LookupSum(dists, Row(pqIds, chunks, i), chunks)
  {
    var a := new real[nPts](_ => 0.0);
    for chunk := 0 to chunks
      invariant forall i {:trigger a[i]} :: 0 <= i < nPts ==> a[i] == PointSum(pqIds, nPts, chunks, dists, i, chunk)
    {
      hide PointSum, Codes;
      for idx := 0 to nPts
        invariant forall i {:trigger a[i]} :: 0 <= i < nPts ==>
          a[i] == PointSum(pqIds, nPts, chunks, dists, i, if i < idx then chunk + 1 else chunk)
      {
        PointSumNext(pqIds, nPts, chunks, dists, idx, chunk);
        var center := pqIds[chunks * idx + chunk];
        a[idx] := a[idx] + dists[Cell(chunk, center)];
      }
    }
    out := a[..];
    forall i | 0 <= i < nPts
      ensures i * chunks + chunks <= |pqIds|
    {
      RowsFit(i, nPts, chunks);
    }
  }

  lemma PointSumNext(pqIds: seq<nat>, nPts: nat, chunks: nat, dists: seq<real>, idx: nat, chunk: nat)
    requires Codes(pqIds, nPts, chunks, dists) && idx < nPts && chunk < chunks
    ensures chunks * idx + chunk < |pqIds| && Cell(chunk, pqIds[chunks * idx + chunk]) < |dists|
    ensures PointSum(pqIds, nPts, chunks, dists, idx, chunk + 1) ==
      PointSum(pqIds, nPts, chunks, dists, idx, chunk) + dists[Cell(chunk, pqIds[chunks * idx + chunk])]
  {
    hide LookupSum;
    RowsFit(idx, nPts, chunks);
    LookupNext(dists, pqIds, chunks, idx, chunk);
    CellInRange(chunk, pqIds[chunks * idx + chunk], chunks);
  }

  lemma CellInRange(row: nat, i: nat, rows: nat)
    requires row < rows && i < NUM_PQ_CENTROIDS
    ensures Cell(row, i) < NUM_PQ_CENTROIDS * rows
  {
  }

  lemma LookupNext(dists: seq<real>, pqIds: seq<nat>, chunks: nat, idx: nat, chunk: nat)
    requires idx * chunks + chunks <= |pqIds| && chunk < chunks && |dists| == NUM_PQ_CENTROIDS * chunks
    requires forall k :: 0 <= k < |pqIds| ==> pqIds[k] < NUM_PQ_CENTROIDS
    ensures chunks * idx + chunk < |pqIds|
    ensures LookupSum(dists, Row(pqIds, chunks, idx), chunk + 1) ==
      LookupSum(dists, Row(pqIds, chunks, idx), chunk) + dists[Cell(chunk, pqIds[chunks * idx + chunk])]
  {
    assert chunks * idx == idx * chunks;
    assert Row(pqIds, chunks, idx)[chunk] == pqIds[chunks * idx + chunk];
  }

  /** With the table of `PopulateChunkDistances` a lookup is `l2_distance`. */
  lemma {:induction false} LookupIsL2(p: Pivots, q: seq<real>, dists: seq<real>, code: seq<nat>, n: nat)
    requires p.Valid() && |q| == p.ndims && IsCode(p, code) && n <= p.Chunks()
    requires |dists| == NUM_PQ_CENTROIDS * p.Chunks()
    requires forall c :: 0 <= c < p.Chunks() ==> RowComplete(p, q, c, dists)
    ensures LookupSum(dists, code, n) == CodeDistance(p, q, code, n)
  {
    if n > 0 {
      LookupIsL2(p, q, dists, code, n - 1);
      assert RowComplete(p, q, n - 1, dists);
      assert dists[Cell(n - 1, code[n - 1])] == Part(p, q, code[n - 1], p.offsets[n - 1], p.offsets[n]);
    }
  }

  // The distance to a code is the distance to the vector it stands for.

  ghost function SquaredDistance(q: seq<real>, x: seq<real>, n: nat): real
    requires n <= |q| == |x|
  {
    if n == 0 then 0.0 else SquaredDistance(q, x, n - 1) + Square(q[n - 1] - x[n - 1])
  }

  ghost function Gap(q: seq<real>, x: seq<real>, d: nat): real {
    if d < |q| && d < |x| then Square(q[d] - x[d]) else 0.0
  }

  /** The same, over the dimensions in a given order. */
  ghost function OrderedDistance(q: seq<real>, x: seq<real>, order: seq<nat>): real {
    if order == [] then 0.0
    else OrderedDistance(q, x, order[..|order| - 1]) + Gap(q, x, order[|order| - 1])
  }

  lemma {:induction false} OrderedSplit(q: seq<real>, x: seq<real>, a: seq<nat>, b: seq<nat>)
    ensures OrderedDistance(q, x, a + b) == OrderedDistance(q, x, a) + OrderedDistance(q, x, b)
  {
    if b == [] {
      assert a + b == a;
    } else {
      OrderedSplit(q, x, a, b[..|b| - 1]);
      assert (a + b)[..|a + b| - 1] == a + b[..|b| - 1];
    }
  }

  lemma OrderedOne(q: seq<real>, x: seq<real>, d: nat)
    ensures OrderedDistance(q, x, [d]) == Gap(q, x, d)
  {
    assert [d][..0] == [];
  }

  /** Taking the dimension at position `k` out of the order. */
  lemma TakeOut(q: seq<real>, x: seq<real>, order: seq<nat>, k: nat)
    requires k < |order|
    ensures OrderedDistance(q, x, order) == OrderedDistance(q, x, order[..k] + order[k + 1..]) + Gap(q, x, order[k])
  {
    hide Gap, OrderedDistance;
    var a, b, d := order[..k], order[k + 1..], order[k];
    assert order == a + ([d] + b);
    OrderedSplit(q, x, a, [d] + b);
    OrderedSplit(q, x, [d], b);
    OrderedOne(q, x, d);
    OrderedSplit(q, x, a, b);
  }

  /** The order does not matter. */
  lemma {:induction false} AnyOrder(q: seq<real>, x: seq<real>, order: seq<nat>, n: nat)
    requires n <= |q| == |x| && NoRepeats(order) && |order| == n && forall k :: 0 <= k < |order| ==> order[k] < n
    ensures OrderedDistance(q, x, order) == SquaredDistance(q, x, n)
  {
    if n > 0 {
      hide Square;
      var k := PlaceOf(order, n);
      TakeOut(q, x, order, k);
      var rest := order[..k] + order[k + 1..];
      forall i | 0 <= i < |rest|
        ensures rest[i] < n - 1
      {
        assert rest[i] == order[if i < k then i else i + 1];
      }
      AnyOrder(q, x, rest, n - 1);
    }
  }

  /** A sequence of `n` different numbers below `n` has them all. */
  lemma PlaceOf(order: seq<nat>, n: nat) returns (k: nat)
    requires n > 0 && NoRepeats(order) && |order| == n && forall i :: 0 <= i < |order| ==> order[i] < n
    ensures k < n && order[k] == n - 1
  {
    MembersSize(order);
    assert Members(order) <= Below(n);
    if n - 1 !in order {
      ProperSubsetSize(Members(order), Below(n), n - 1);
    }
    k :| 0 <= k < |order| && order[k] == n - 1;
  }

  lemma {:induction false} PartIsOrdered(p: Pivots, q: seq<real>, x: seq<real>, i: nat, from: nat, to: nat)
    requires p.Valid() && |q| == p.ndims == |x| && i < NUM_PQ_CENTROIDS && from <= to <= p.ndims
    requires InflatedPart(p, i, from, to, x)
    ensures OrderedDistance(q, x, p.rearrangement[..to]) == OrderedDistance(q, x, p.rearrangement[..from]) +
      Part(p, q, i, from, to)
  {
    if from < to {
      PartIsOrdered(p, q, x, i, from, to - 1);
      var d := p.rearrangement[to - 1];
      assert x[d] == Pivot(p, i, to - 1) + p.centroid[d];
      SquareSign(q[d] - x[d], Pivot(p, i, to - 1) - (q[d] - p.centroid[d]));
      assert p.rearrangement[..to][..to - 1] == p.rearrangement[..to - 1];
    }
  }

  lemma SquareSign(a: real, b: real)
    requires a == 0.0 - b
    ensures Square(a) == Square(b)
  {
  }

  lemma {:induction false} CodeIsOrdered(p: Pivots, q: seq<real>, code: seq<nat>, x: seq<real>, n: nat)
    requires p.Valid() && |q| == p.ndims == |x| && IsCode(p, code) && n <= p.Chunks() && Inflated(p, code, x, n)
    ensures CodeDistance(p, q, code, n) == OrderedDistance(q, x, p.rearrangement[..p.offsets[n]])
  {
    if n == 0 {
      assert p.rearrangement[..0] == [];
    } else {
      forall c {:trigger code[c]} | 0 <= c < n - 1
        ensures InflatedPart(p, code[c], p.offsets[c], p.offsets[c + 1], x)
      {
      }
      CodeIsOrdered(p, q, code, x, n - 1);
      assert InflatedPart(p, code[n - 1], p.offsets[n - 1], p.offsets[n], x);
      PartIsOrdered(p, q, x, code[n - 1], p.offsets[n - 1], p.offsets[n]);
    }
  }

  /** `l2_distance` is the squared distance from the query to the inflated vector. */
  lemma L2IsExact(p: Pivots, q: seq<real>, code: seq<nat>, x: seq<real>)
    requires p.Valid() && |q| == p.ndims == |x| && IsCode(p, code) && Inflated(p, code, x, p.Chunks())
    ensures CodeDistance(p, q, code, p.Chunks()) == SquaredDistance(q, x, p.ndims)
  {
    CodeIsOrdered(p, q, code, x, p.Chunks());
    assert p.rearrangement[..p.ndims] == p.rearrangement;
    AnyOrder(q, x, p.rearrangement, p.ndims);
  }

  /** A batch of distances, as the searches compute them: each is the squared distance from the query
      to the vector the code of the point stands for. */
  method ComputePqDists(table: FixedChunkPQTable, q: seq<real>, pqDists: array<real>, ids: seq<nat>,
                        allCoords: seq<nat>, rows: nat)
      returns (dists: seq<real>)
    requires table.Valid() && |q| == table.pivots.ndims && pqDists.Length == NUM_PQ_CENTROIDS * table.pivots.Chunks()
    requires |allCoords| == rows * table.pivots.Chunks()
    requires forall k :: 0 <= k < |allCoords| ==> allCoords[k] < NUM_PQ_CENTROIDS
    requires forall i :: 0 <= i < |ids| ==> ids[i] < rows
    modifies pqDists
    ensures |dists| == |ids|
    ensures forall i, x {:trigger dists[i], Code(table.pivots, allCoords, ids[i], x)} ::
      0 <= i < |ids| && Code(table.pivots, allCoords, ids[i], x) ==>
        dists[i] == SquaredDistance(q, x, table.pivots.ndims)
  {
    var p, n := table.pivots, table.pivots.Chunks();
    table.PopulateChunkDistances(q, pqDists);
    var coords := AggregateCoords(ids, allCoords, rows, n);
    forall k | 0 <= k < |coords|
      ensures coords[k] < NUM_PQ_CENTROIDS
    {
      InSomeRow(coords, allCoords, ids, rows, n, k);
    }
    dists := PqDistLookup(coords, |ids|, n, pqDists[..]);
    forall i, x | 0 <= i < |ids| && Code(p, allCoords, ids[i], x)
      ensures dists[i] == SquaredDistance(q, x, p.ndims)
    {
      var code := Row(allCoords, n, ids[i]);
      assert Row(coords, n, i) == code;
      LookupIsL2(p, q, pqDists[..], code, n);
      L2IsExact(p, q, code, x);
    }
  }

  /** The code of point `id` stands for the vector `x`. */
  ghost predicate Code(p: Pivots, allCoords: seq<nat>, id: nat, x: seq<real>)
    requires p.Valid()
  {
    && id * p.Chunks() + p.Chunks() <= |allCoords| && |x| == p.ndims
    && IsCode(p, Row(allCoords, p.Chunks(), id)) && Inflated(p, Row(allCoords, p.Chunks(), id), x, p.Chunks())
  }

  lemma InSomeRow(out: seq<nat>, codes: seq<nat>, ids: seq<nat>, rows: nat, n: nat, k: nat)
    requires |out| == |ids| * n && k < |out| && |codes| == rows * n
    requires forall j :: 0 <= j < |codes| ==> codes[j] < NUM_PQ_CENTROIDS
    requires forall i :: 0 <= i < |ids| ==>
      i * n + n <= |out| && ids[i] * n + n <= |codes| && Row(out, n, i) == Row(codes, n, ids[i])
    ensures out[k] < NUM_PQ_CENTROIDS
  {
    var i := RowOf(k, |ids|, n);
    assert out[k] == Row(out, n, i)[k - i * n] == Row(codes, n, ids[i])[k - i * n];
  }

  lemma RowOf(k: nat, m: nat, n: nat) returns (i: nat)
    requires k < m * n
    ensures i < m && i * n <= k < i * n + n
  {
    i := 0;
    while k >= i * n + n
      invariant 0 <= i < m && i * n <= k
      decreases m - i
    {
      assert (i + 1) * n == i * n + n;
      if i + 1 == m {
        assert false;
      }
      i := i + 1;
    }
  }

  /** The boundaries and the column order of `Arrange` make a valid table. */
  lemma ArrangedIsValid(dim: nat, chunks: nat, rearrangement: seq<nat>, offsets: seq<nat>, centroid: seq<real>,
                        tables: seq<real>)
    requires 1 <= chunks <= dim && rearrangement == Count(0, dim)
    requires |offsets| == chunks + 1 && offsets[0] == 0 && offsets[chunks] == dim
    requires forall b :: 0 <= b < chunks ==> offsets[b + 1] == offsets[b] + Size(dim, chunks, b)
    requires |centroid| == dim && |tables| == NUM_PQ_CENTROIDS * dim
    ensures Pivots(dim, offsets, rearrangement, centroid, tables).Valid()
  {
    forall b, c | 0 <= b <= c < |offsets|
      ensures offsets[b] <= offsets[c]
    {
      OffsetsGrow(dim, chunks, offsets, b, c);
    }
  }

  lemma {:induction false} OffsetsGrow(dim: nat, chunks: nat, offsets: seq<nat>, b: nat, c: nat)
    requires chunks > 0 && |offsets| == chunks + 1 && b <= c <= chunks
    requires forall a :: 0 <= a < chunks ==> offsets[a + 1] == offsets[a] + Size(dim, chunks, a)
    ensures offsets[b] <= offsets[c]
  {
    if b < c {
      OffsetsGrow(dim, chunks, offsets, b, c - 1);
      assert offsets[c - 1 + 1] == offsets[c - 1] + Size(dim, chunks, c - 1);
    }
  }
}
