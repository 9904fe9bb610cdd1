/** The second half of the aim-point scatter: the two accumulators of the
    heliostat loop (a hit count and a sum of radial positions per cell of
    the fluxNX x fluxNY grid) are read back, row by row, as a sparse list
    with one (x centre, y centre, mean radial position, count) point per
    non-empty cell. Nothing here depends on how the heliostats were binned. */
module ScatterEmission {
  import opened Receivers

  datatype ScatterPoint = ScatterPoint(x: real, y: real, meanRadial: real, count: nat)

  /** The accumulators: counts[i][j] (bins) and sums[i][j] (lens). */
  datatype Tally = Tally(counts: seq<seq<nat>>, sums: seq<seq<real>>)

  /** Both accumulators have nx rows of ny cells. */
  predicate Shaped(t: Tally, nx: nat, ny: nat) {
    |t.counts| == nx && |t.sums| == nx &&
    forall i :: 0 <= i < nx ==> |t.counts[i]| == ny && |t.sums[i]| == ny
  }

  /** The grid has cells and the accumulators have the receiver's resolution. */
  predicate Emittable(r: Receiver, t: Tally) {
    r.fluxNX > 0 && r.fluxNY > 0 && Shaped(t, r.fluxNX, r.fluxNY)
  }

  /** Cell width: degrees for a cylinder, length units otherwise. */
  function CellWidth(r: Receiver): real
    requires r.fluxNX > 0
  {
    if IsCylindrical(r.geom) then 360.0 / r.fluxNX as real else r.width / r.fluxNX as real
  }

  function CellHeight(r: Receiver): real
    requires r.fluxNY > 0
  {
    r.height / r.fluxNY as real
  }

  /** Centre of column i and of row j. */
  function CellX(r: Receiver, i: int): real
    requires r.fluxNX > 0
  {
    i as real * CellWidth(r) + CellWidth(r) / 2.0
  }

  function CellY(r: Receiver, j: int): real
    requires r.fluxNY > 0
  {
    j as real * CellHeight(r) + CellHeight(r) / 2.0
  }

  /** The point of a non-empty cell. */
  function CellPoint(r: Receiver, t: Tally, i: nat, j: nat): ScatterPoint
    requires Emittable(r, t) && i < r.fluxNX && j < r.fluxNY && t.counts[i][j] > 0
  {
    ScatterPoint(CellX(r, i), CellY(r, j), t.sums[i][j] / t.counts[i][j] as real, t.counts[i][j])
  }

  /** What cell (i, j) contributes: nothing for an empty bin. */
  function CellPoints(r: Receiver, t: Tally, i: nat, j: nat): seq<ScatterPoint>
    requires Emittable(r, t) && i < r.fluxNX && j < r.fluxNY
  {
    if t.counts[i][j] == 0 then [] else [CellPoint(r, t, i, j)]
  }

  /** (i, j) is a cell of the grid, or the end position (fluxNX, 0). */
  predicate Position(r: Receiver, i: nat, j: nat) {
    (i < r.fluxNX && j <= r.fluxNY) || (i == r.fluxNX && j == 0)
  }

  /** Cell (a, b) comes before position (i, j) in row-major order. */
  predicate Precedes(a: int, b: int, i: int, j: int) {
    a < i || (a == i && b < j)
  }

  /** Points of the cells before position (i, j), in row-major order. */
  function PointsBefore(r: Receiver, t: Tally, i: nat, j: nat): seq<ScatterPoint>
    requires Emittable(r, t) && Position(r, i, j)
    decreases i, j
  {
    if j > 0 then PointsBefore(r, t, i, j - 1) + CellPoints(r, t, i, j - 1)
    else if i > 0 then PointsBefore(r, t, i - 1, r.fluxNY)
    else []
  }

  /** The sparse list of the whole grid, in row-major order. */
  function Emitted(r: Receiver, t: Tally): seq<ScatterPoint>
    requires Emittable(r, t)
  {
    PointsBefore(r, t, r.fluxNX, 0)
  }

  /** Two tallies of the same shape that agree cell by cell are equal. */
  lemma TallyExtensional(t1: Tally, t2: Tally, nx: nat, ny: nat)
    requires Shaped(t1, nx, ny) && Shaped(t2, nx, ny)
    requires forall a, b :: 0 <= a < nx && 0 <= b < ny ==>
      t1.counts[a][b] == t2.counts[a][b] && t1.sums[a][b] == t2.sums[a][b]
    ensures t1 == t2
  {
    forall a | 0 <= a < nx
      ensures t1.counts[a] == t2.counts[a] && t1.sums[a] == t2.sums[a]
    {
      assert forall b :: 0 <= b < ny ==> t1.counts[a][b] == t2.counts[a][b];
      assert forall b :: 0 <= b < ny ==> t1.sums[a][b] == t2.sums[a][b];
    }
  }

  /** One step of the grid loop: appending what the loop builds for cell
      (i, j) from its count n and sum s extends the points before (i, j) to
      the points before the next cell. */
  lemma EmitStep(r: Receiver, t: Tally, i: nat, j: nat, x: real, y: real, n: nat, s: real, ps: seq<ScatterPoint>)
    requires Emittable(r, t) && i < r.fluxNX && j < r.fluxNY
    requires x == CellX(r, i) && y == CellY(r, j)
    requires n == t.counts[i][j] && s == t.sums[i][j]
    requires ps == PointsBefore(r, t, i, j)
    ensures ps + (if n > 0 then [ScatterPoint(x, y, s / n as real, n)] else []) == PointsBefore(r, t, i, j + 1)
  {
  }

  /** The loop over the grid that appends one point per non-empty bin. */
  method EmitPoints(r: Receiver, bins: array2<nat>, lens: array2<real>, ghost t: Tally) returns (fdata: seq<ScatterPoint>)
    requires Emittable(r, t)
    requires bins.Length0 == r.fluxNX && bins.Length1 == r.fluxNY
    requires lens.Length0 == r.fluxNX && lens.Length1 == r.fluxNY
    requires forall a, b :: 0 <= a < r.fluxNX && 0 <= b < r.fluxNY ==> t.counts[a][b] == bins[a, b] && t.sums[a][b] == lens[a, b]
    ensures fdata == Emitted(r, t)
  {
    var dx := CellWidth(r);
    var xlow := dx / 2.0;
    fdata := [];
    var i := 0;
    while i < r.fluxNX
      invariant 0 <= i <= r.fluxNX
      invariant fdata == PointsBefore(r, t, i, 0)
    {
      var xp := i as real * dx + xlow;
      fdata := EmitRow(r, bins, lens, t, i, xp, fdata);
      assert PointsBefore(r, t, i + 1, 0) == PointsBefore(r, t, i, r.fluxNY);
      i := i + 1;
    }
  }

  /** The inner loop of the grid loop: the cells of column i. */
  method EmitRow(r: Receiver, bins: array2<nat>, lens: array2<real>, ghost t: Tally, i: nat, xp: real, prefix: seq<ScatterPoint>)
    returns (fdata: seq<ScatterPoint>)
    requires Emittable(r, t) && i < r.fluxNX && xp == CellX(r, i)
    requires bins.Length0 == r.fluxNX && bins.Length1 == r.fluxNY
    requires lens.Length0 == r.fluxNX && lens.Length1 == r.fluxNY
    requires forall b :: 0 <= b < r.fluxNY ==> t.counts[i][b] == bins[i, b] && t.sums[i][b] == lens[i, b]
    requires prefix == PointsBefore(r, t, i, 0)
    ensures fdata == PointsBefore(r, t, i, r.fluxNY)
  {
    var dy := CellHeight(r);
    var ylow := dy / 2.0;
    fdata := prefix;
    var j := 0;
    while j < r.fluxNY
      invariant 0 <= j <= r.fluxNY
      invariant fdata == PointsBefore(r, t, i, j)
    {
      var yp := j as real * dy + ylow;
      var n, s := bins[i, j], lens[i, j];
      EmitStep(r, t, i, j, xp, yp, n, s, fdata);
      if n > 0 {
        fdata := fdata + [ScatterPoint(xp, yp, s / n as real, n)];
      }
      j := j + 1;
    }
  }

  // ---- Which points are emitted ----

  lemma {:induction false} PointsBeforeMembers(r: Receiver, t: Tally, i: nat, j: nat, p: ScatterPoint)
    requires Emittable(r, t) && Position(r, i, j)
    ensures p in PointsBefore(r, t, i, j) <==>
      exists a, b :: 0 <= a < r.fluxNX && 0 <= b < r.fluxNY && Precedes(a, b, i, j) &&
                     t.counts[a][b] > 0 && p == CellPoint(r, t, a, b)
    decreases i, j
  {
    if j > 0 {
      PointsBeforeMembers(r, t, i, j - 1, p);
      if t.counts[i][j - 1] > 0 && p == CellPoint(r, t, i, j - 1) {
        assert p in CellPoints(r, t, i, j - 1);
      }
    } else if i > 0 {
      PointsBeforeMembers(r, t, i - 1, r.fluxNY, p);
    }
  }

  /** The emitted list, read as a set, is exactly the points of the
      non-empty cells. */
  lemma EmittedMembers(r: Receiver, t: Tally, p: ScatterPoint)
    requires Emittable(r, t)
    ensures p in Emitted(r, t) <==>
      exists a, b :: 0 <= a < r.fluxNX && 0 <= b < r.fluxNY && t.counts[a][b] > 0 && p == CellPoint(r, t, a, b)
  {
    PointsBeforeMembers(r, t, r.fluxNX, 0, p);
  }

  // ---- The emitted counts add up to the tally ----

  function SumCounts(ps: seq<ScatterPoint>): nat
    decreases |ps|
  {
    if ps == [] then 0 else SumCounts(ps[..|ps| - 1]) + ps[|ps| - 1].count
  }

  /** Appending a cell's contribution adds its count. */
  lemma SumCountsAppendCell(ps: seq<ScatterPoint>, c: seq<ScatterPoint>, n: nat)
    requires |c| <= 1 && (c == [] <==> n == 0) && (c != [] ==> c[0].count == n)
    ensures SumCounts(ps + c) == SumCounts(ps) + n
  {
    if c != [] {
      assert (ps + c)[..|ps + c| - 1] == ps;
    } else {
      assert ps + c == ps;
    }
  }

  /** The counts of the cells before position (i, j). */
  function TotalBefore(r: Receiver, t: Tally, i: nat, j: nat): nat
    requires Emittable(r, t) && Position(r, i, j)
    decreases i, j
  {
    if j > 0 then TotalBefore(r, t, i, j - 1) + t.counts[i][j - 1]
    else if i > 0 then TotalBefore(r, t, i - 1, r.fluxNY)
    else 0
  }

  /** The total of all the bins. */
  function Total(r: Receiver, t: Tally): nat
    requires Emittable(r, t)
  {
    TotalBefore(r, t, r.fluxNX, 0)
  }

  lemma {:induction false} PointsBeforeCount(r: Receiver, t: Tally, i: nat, j: nat)
    requires Emittable(r, t) && Position(r, i, j)
    ensures SumCounts(PointsBefore(r, t, i, j)) == TotalBefore(r, t, i, j)
    decreases i, j
  {
    if j > 0 {
      var ps, c := PointsBefore(r, t, i, j - 1), CellPoints(r, t, i, j - 1);
      assert PointsBefore(r, t, i, j) == ps + c;
      assert TotalBefore(r, t, i, j) == TotalBefore(r, t, i, j - 1) + t.counts[i][j - 1];
      PointsBeforeCount(r, t, i, j - 1);
      SumCountsAppendCell(ps, c, t.counts[i][j - 1]);
    } else if i > 0 {
      assert PointsBefore(r, t, i, j) == PointsBefore(r, t, i - 1, r.fluxNY);
      assert TotalBefore(r, t, i, j) == TotalBefore(r, t, i - 1, r.fluxNY);
      PointsBeforeCount(r, t, i - 1, r.fluxNY);
    }
  }

  /** The counts of the emitted points add up to the sum of all the bins. */
  lemma EmittedCountsTotal(r: Receiver, t: Tally)
    requires Emittable(r, t)
    ensures SumCounts(Emitted(r, t)) == Total(r, t)
  {
    PointsBeforeCount(r, t, r.fluxNX, 0);
  }

  // ---- Only non-empty bins are emitted ----

  predicate AllNonEmpty(ps: seq<ScatterPoint>) {
    forall k :: 0 <= k < |ps| ==> ps[k].count > 0
  }

  lemma {:induction false} PointsBeforeNonEmpty(r: Receiver, t: Tally, i: nat, j: nat)
    requires Emittable(r, t) && Position(r, i, j)
    ensures AllNonEmpty(PointsBefore(r, t, i, j))
    decreases i, j
  {
    if j > 0 {
      PointsBeforeNonEmpty(r, t, i, j - 1);
    } else if i > 0 {
      PointsBeforeNonEmpty(r, t, i - 1, r.fluxNY);
    }
  }

  lemma {:induction false} NonEmptyBoundsLength(ps: seq<ScatterPoint>)
    requires AllNonEmpty(ps)
    ensures |ps| <= SumCounts(ps)
    decreases |ps|
  {
    if ps != [] {
      NonEmptyBoundsLength(ps[..|ps| - 1]);
    }
  }

  /** Every emitted point stands for at least one hit, so there are never
      more points than hits. */
  lemma EmittedNonEmpty(r: Receiver, t: Tally)
    requires Emittable(r, t)
    ensures forall k :: 0 <= k < |Emitted(r, t)| ==> Emitted(r, t)[k].count > 0
    ensures |Emitted(r, t)| <= Total(r, t)
  {
    PointsBeforeNonEmpty(r, t, r.fluxNX, 0);
    NonEmptyBoundsLength(Emitted(r, t));
    EmittedCountsTotal(r, t);
  }
}
