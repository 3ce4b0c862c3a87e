/** How `generate_pq_pivots` splits the dimensions of a vector into chunks. */
module PqChunks {
  import opened Arith

  const FLT_MAX: real := 340282346638528859811704183484516925440.0

  /** The numbers `from .. to` in order. */
  ghost function Count(from: nat, to: nat): seq<nat> {
    seq(if from <= to then to - from else 0, i requires 0 <= i => from + i)
  }

  /** The first chunks get one dimension more, as many as there are dimensions left over. */
  ghost function Size(dim: nat, chunks: nat, b: nat): nat
    requires chunks > 0
  {
    if b < dim % chunks then dim / chunks + 1 else dim / chunks
  }

  ghost function Start(dim: nat, chunks: nat, b: nat): nat
    requires chunks > 0
  {
    if b == 0 then 0 else Start(dim, chunks, b - 1) + Size(dim, chunks, b - 1)
  }

  lemma {:induction false} StartIs(dim: nat, chunks: nat, b: nat)
    requires chunks > 0
    ensures Start(dim, chunks, b) == b * (dim / chunks) + if b < dim % chunks then b else dim % chunks
  {
    if b > 0 {
      StartIs(dim, chunks, b - 1);
      assert b * (dim / chunks) == (b - 1) * (dim / chunks) + dim / chunks;
    }
  }

  lemma StartNext(dim: nat, chunks: nat, b: nat)
    requires chunks > 0
    ensures Start(dim, chunks, b + 1) == Start(dim, chunks, b) + Size(dim, chunks, b)
    ensures chunks <= dim ==> Size(dim, chunks, b) > 0
  {
    if chunks <= dim {
      assert dim / chunks >= 1;
    }
  }

  lemma StartEnds(dim: nat, chunks: nat)
    requires chunks > 0
    ensures Start(dim, chunks, 0) == 0 && Start(dim, chunks, chunks) == dim
  {
    StartIs(dim, chunks, chunks);
    assert chunks * (dim / chunks) + dim % chunks == dim;
  }

  lemma {:induction false} StartGrows(dim: nat, chunks: nat, a: nat, b: nat)
    requires chunks > 0 && a <= b
    ensures Start(dim, chunks, a) <= Start(dim, chunks, b)
  {
    if a < b {
      StartGrows(dim, chunks, a, b - 1);
    }
  }

  /** The loop that looks for the bin with the smallest load among those with room. */
  method PickBin(bins: seq<seq<nat>>, loads: seq<real>, threshold: nat) returns (best: nat)
    requires |loads| == |bins| && forall b :: 0 <= b < |bins| ==> loads[b] == 0.0
    ensures best < |bins| ==> |bins[best]| < threshold && forall b :: 0 <= b < best ==> |bins[b]| >= threshold
    ensures best >= |bins| ==> forall b :: 0 <= b < |bins| ==> |bins[b]| >= threshold
  {
    best := |bins| + 1;
    var bestLoad := FLT_MAX;
    for b := 0 to |bins|
      invariant best == |bins| + 1 ==> bestLoad == FLT_MAX && forall c :: 0 <= c < b ==> |bins[c]| >= threshold
      invariant best != |bins| + 1 ==> bestLoad == 0.0 && best < b && |bins[best]| < threshold && forall c ::
        0 <= c < best ==> |bins[c]| >= threshold
    {
      if loads[b] < bestLoad && |bins[b]| < threshold {
        best, bestLoad := b, loads[b];
      }
    }
  }

  /** The bins after `d` dimensions: those before `cur` are full, and `cur` has been begun or is next. */
  ghost predicate Filling(bins: seq<seq<nat>>, dim: nat, chunks: nat, cur: nat, d: nat)
    requires chunks > 0
  {
    && |bins| == chunks && cur <= chunks && Start(dim, chunks, cur) <= d
    && (cur < chunks ==> d < Start(dim, chunks, cur + 1))
    && (forall b :: 0 <= b < cur ==> bins[b] == Count(Start(dim, chunks, b), Start(dim, chunks, b + 1)))
    && (cur < chunks ==> bins[cur] == Count(Start(dim, chunks, cur), d))
    && (forall b :: cur < b < chunks ==> bins[b] == [])
  }

  /** The bin for dimension `d` is the current one: each dimension gets a bin. */
  lemma PickIsCurrent(bins: seq<seq<nat>>, dim: nat, chunks: nat, cur: nat, d: nat, threshold: nat, best: nat)
    requires 1 <= chunks <= dim && d < dim && Filling(bins, dim, chunks, cur, d)
    requires threshold == if 0 < dim % chunks <= cur then dim / chunks else CeilDiv(dim, chunks)
    requires best < |bins| ==> |bins[best]| < threshold && forall b :: 0 <= b < best ==> |bins[b]| >= threshold
    requires best >= |bins| ==> forall b :: 0 <= b < |bins| ==> |bins[b]| >= threshold
    ensures cur < chunks && best == cur
  {
    StartEnds(dim, chunks);
    assert cur < chunks;
    assert |bins[cur]| == d - Start(dim, chunks, cur) < Size(dim, chunks, cur) <= threshold;
    forall b | 0 <= b < cur
      ensures |bins[b]| >= threshold
    {
      assert bins[b] == Count(Start(dim, chunks, b), Start(dim, chunks, b + 1));
    }
  }

  lemma FillOne(bins: seq<seq<nat>>, dim: nat, chunks: nat, cur: nat, d: nat)
    requires 1 <= chunks <= dim && d < dim && Filling(bins, dim, chunks, cur, d) && cur < chunks
    ensures var bins' := bins[cur := bins[cur] + [d]];
      Filling(bins', dim, chunks, if d + 1 == Start(dim, chunks, cur + 1) then cur + 1 else cur, d + 1)
    ensures |bins[cur]| + 1 == Size(dim, chunks, cur) <==> d + 1 == Start(dim, chunks, cur + 1)
  {
    hide Start, Size;
    StartNext(dim, chunks, cur);
    StartNext(dim, chunks, cur + 1);
    var bins' := bins[cur := bins[cur] + [d]];
    assert bins'[cur] == Count(Start(dim, chunks, cur), d + 1);
    assert Count(d + 1, d + 1) == [];
  }

  /** The assignment of the dimensions to bins. */
  method AssignBins(dim: nat, chunks: nat) returns (bins: seq<seq<nat>>)
    requires 1 <= chunks <= dim
    ensures |bins| == chunks
    ensures forall b :: 0 <= b < chunks ==> bins[b] == Count(Start(dim, chunks, b), Start(dim, chunks, b + 1))
  {
    hide Filling, Start;
    assert Filling(seq(chunks, _ => []), dim, chunks, 0, 0) by { NothingFilled(dim, chunks); }
    var low, high := dim / chunks, CeilDiv(dim, chunks);
    var maxNumHigh := dim - low * chunks;
    assert maxNumHigh == dim % chunks;
    var numHigh, threshold := 0, high;
    bins := seq(chunks, _ => []);
    var loads := seq(chunks, _ => 0.0);
    ghost var cur := 0;
    assert dim / chunks >= 1;
    for d := 0 to dim
      invariant |bins| == chunks && Filling(bins, dim, chunks, cur, d)
      invariant numHigh == if maxNumHigh == 0 || cur < maxNumHigh then cur else maxNumHigh
      invariant threshold == if 0 < maxNumHigh <= cur then low else high
    {
      var best := PickBin(bins, loads, threshold);
      PickIsCurrent(bins, dim, chunks, cur, d, threshold, best);
      FillOne(bins, dim, chunks, cur, d);
      bins := bins[best := bins[best] + [d]];
      if |bins[best]| == high {
        numHigh := numHigh + 1;
        if numHigh == maxNumHigh {
          threshold := low;
        }
      }
      if d + 1 == Start(dim, chunks, cur + 1) {
        cur := cur + 1;
      }
    }
    AllFilled(bins, dim, chunks, cur);
  }

  lemma NothingFilled(dim: nat, chunks: nat)
    requires 1 <= chunks <= dim
    ensures Filling(seq(chunks, _ => []), dim, chunks, 0, 0)
  {
    assert dim / chunks >= 1;
    assert Count(0, 0) == [];
  }

  lemma AllFilled(bins: seq<seq<nat>>, dim: nat, chunks: nat, cur: nat)
    requires 1 <= chunks <= dim && Filling(bins, dim, chunks, cur, dim)
    ensures cur == chunks == |bins|
    ensures forall b :: 0 <= b < chunks ==> bins[b] == Count(Start(dim, chunks, b), Start(dim, chunks, b + 1))
  {
    StartEnds(dim, chunks);
    if cur < chunks {
      StartGrows(dim, chunks, cur + 1, chunks);
    }
  }

  /** A vector with its coordinates in the given order. */
  ghost function Rearranged(row: seq<real>, order: seq<nat>): (out: seq<real>)
    requires forall d :: 0 <= d < |order| ==> order[d] < |row|
    ensures |out| == |order|
  {
    seq(|order|, d requires 0 <= d < |order| => row[order[d]])
  }

  /** The encoder's copy of a vector into the stored column order. */
  method Permute(row: seq<real>, order: seq<nat>) returns (out: seq<real>)
    requires forall d :: 0 <= d < |order| ==> order[d] < |row|
    ensures out == Rearranged(row, order)
  {
    out := [];
    for d := 0 to |order|
      invariant out == Rearranged(row, order)[..d]
    {
      out := out + [row[order[d]]];
    }
  }

  /** The pivots are trained on chunks of the vectors as they are, the encoder cuts its chunks from the
      rearranged ones. `offsets` are the boundaries of both. */
  ghost predicate TrainedAsEncoded(row: seq<real>, order: seq<nat>, offsets: seq<nat>)
    requires |order| == |row| && forall d :: 0 <= d < |order| ==> order[d] < |row|
  {
    forall b {:trigger offsets[b]} :: 0 <= b < |offsets| - 1 && offsets[b] <= offsets[b + 1] <= |row| ==>
      Rearranged(row, order)[offsets[b]..offsets[b + 1]] == row[offsets[b]..offsets[b + 1]]
  }

  ghost predicate Boundaries(offsets: seq<nat>, dim: nat) {
    && |offsets| >= 2 && offsets[0] == 0 && offsets[|offsets| - 1] == dim
    && forall b :: 0 <= b < |offsets| - 1 ==> offsets[b] <= offsets[b + 1]
  }

  lemma {:induction false} BoundariesWithin(offsets: seq<nat>, dim: nat, a: nat, b: nat)
    requires Boundaries(offsets, dim) && a <= b < |offsets|
    ensures offsets[a] <= offsets[b]
    decreases b - a
  {
    if a < b {
      BoundariesWithin(offsets, dim, a, b - 1);
    }
  }

  /** The chunk that holds dimension `d`. */
  lemma {:induction false} ChunkOf(offsets: seq<nat>, dim: nat, d: nat, n: nat) returns (b: nat)
    requires Boundaries(offsets, dim) && n < |offsets| && d < offsets[n]
    ensures b < n && offsets[b] <= d < offsets[b + 1] <= dim
  {
    BoundariesWithin(offsets, dim, n, |offsets| - 1);
    if d >= offsets[n - 1] {
      b := n - 1;
    } else {
      b := ChunkOf(offsets, dim, d, n - 1);
    }
  }

  /** Whatever the boundaries: the encoder agrees with the training on every vector if and only if the column order
      is the identity. */
  lemma TrainedIff(order: seq<nat>, offsets: seq<nat>, dim: nat)
    requires |order| == dim && Boundaries(offsets, dim) && forall d :: 0 <= d < dim ==> order[d] < dim
    ensures (forall row {:trigger TrainedAsEncoded(row, order, offsets)} ::
      |row| == dim ==> TrainedAsEncoded(row, order, offsets)) <==> order == Count(0, dim)
  {
    if order == Count(0, dim) {
      forall row: seq<real> | |row| == dim
        ensures TrainedAsEncoded(row, order, offsets)
      {
        assert forall d :: 0 <= d < dim ==> order[d] == d;
        assert Rearranged(row, order) == row;
      }
    } else {
      var d :| 0 <= d < dim && order[d] != d;
      var row := seq(dim, i => i as real);
      var b := ChunkOf(offsets, dim, d, |offsets| - 1);
      assert Rearranged(row, order)[offsets[b]..offsets[b + 1]][d - offsets[b]] == order[d] as real;
      assert row[offsets[b]..offsets[b + 1]][d - offsets[b]] == d as real;
      assert !TrainedAsEncoded(row, order, offsets);
    }
  }

  /** The column order and the chunk boundaries: the order is the identity, and the boundaries cut the
      dimensions into chunks of two neighbouring sizes. So the codes are computed with the pivots that were trained for
      them. */
  method Arrange(dim: nat, chunks: nat) returns (rearrangement: seq<nat>, offsets: seq<nat>)
    requires 1 <= chunks <= dim
    ensures rearrangement == Count(0, dim)
    ensures |offsets| == chunks + 1 && offsets[0] == 0 && offsets[chunks] == dim
    ensures forall b :: 0 <= b < chunks ==> offsets[b + 1] == offsets[b] + Size(dim, chunks, b)
    ensures forall row {:trigger TrainedAsEncoded(row, rearrangement, offsets)} ::
      |row| == dim ==> TrainedAsEncoded(row, rearrangement, offsets)
  {
    hide Start, Size;
    var bins := AssignBins(dim, chunks);
    rearrangement, offsets := [], [0];
    StartEnds(dim, chunks);
    for b := 0 to chunks
      invariant rearrangement == Count(0, Start(dim, chunks, b))
      invariant |offsets| == if b == 0 then 1 else b
      invariant forall c :: 0 <= c < |offsets| ==> offsets[c] == Start(dim, chunks, c)
    {
      rearrangement := rearrangement + bins[b];
      StartNext(dim, chunks, b);
      if b > 0 {
        StartNext(dim, chunks, b - 1);
        offsets := offsets + [offsets[b - 1] + |bins[b - 1]|];
      }
    }
    offsets := offsets + [dim];
    forall b | 0 <= b < chunks
      ensures offsets[b + 1] == offsets[b] + Size(dim, chunks, b)
    {
      StartNext(dim, chunks, b);
    }
    TrainedIff(rearrangement, offsets, dim);
  }
}
