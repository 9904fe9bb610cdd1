/** The aim-point scatter: every heliostat aimed at the receiver is mapped
    to a bin of the fluxNX x fluxNY grid (unwrapped azimuth for cylinders,
    receiver-local coordinates mirrored in X for planes and polygons), the
    bins accumulate a hit count and a sum of radial positions, and each
    non-empty bin becomes one (x centre, y centre, mean radial position,
    count) point, in row-major order. */
module AimBinner {
  import opened PlotMath
  import opened Receivers
  import opened ScatterEmission

  /** The only selection criterion: the heliostat is assigned to this receiver. */
  predicate OnTarget(r: Receiver, h: Heliostat) {
    h.receiver == r.id
  }

  /** The aim point relative to the receiver offset and optical height. */
  function Relative(r: Receiver, h: Heliostat): Point3 {
    Point3(h.aim.x - r.offsetX, h.aim.y - r.offsetY, h.aim.z - r.opticalHeight)
  }

  /** Azimuth of the aim point about the tower, atan2(x, y). */
  function Azimuth(m: Maths, r: Receiver, h: Heliostat): real {
    m.atan2(Relative(r, h).x, Relative(r, h).y)
  }

  /** The aim point in receiver coordinates: rotated about z by pi - azimuth,
      then about x by pi/2 - elevation, then shifted by half the width and
      half the height so that the surface spans [0, width] x [0, height]. */
  function ReceiverLocal(m: Maths, r: Receiver, h: Heliostat): Point3 {
    var raz := r.azimuthDeg * D2R;
    var rel := r.elevationDeg * D2R;
    var p := m.rotation(PI / 2.0 - rel, 0, m.rotation(PI - raz, 2, Relative(r, h)));
    Point3(p.x + r.width / 2.0, p.y + r.height / 2.0, p.z)
  }

  /** The planar X bin is not clamped, so a planar aim point must fall on
      the receiver face for its bin to exist. */
  predicate OnSurface(m: Maths, r: Receiver, h: Heliostat) {
    IsCylindrical(r.geom) || 0.0 <= ReceiverLocal(m, r, h).x < r.width
  }

  predicate AllOnSurface(m: Maths, r: Receiver, hs: seq<Heliostat>) {
    forall k :: 0 <= k < |hs| ==> OnTarget(r, hs[k]) ==> OnSurface(m, r, hs[k])
  }

  /** The scatter needs a non-empty grid and every counted planar aim point
      on the face. */
  predicate Binnable(m: Maths, r: Receiver, hs: seq<Heliostat>) {
    r.fluxNX > 0 && r.fluxNY > 0 && AllOnSurface(m, r, hs)
  }

  /** Horizontal bin: the clamped azimuth fraction for a cylinder, the
      mirrored fraction of the width otherwise. */
  function BinX(m: Maths, r: Receiver, h: Heliostat): (i: int)
    requires OnSurface(m, r, h)
    ensures r.fluxNX > 0 ==> 0 <= i < r.fluxNX
  {
    if IsCylindrical(r.geom) then
      ScaledFloor(ClampedFraction(PI + Azimuth(m, r, h), 2.0 * PI), r.fluxNX)
    else
      var x := ReceiverLocal(m, r, h).x;
      assert 0.0 <= x / r.width < 1.0 by {
        assert (x / r.width) * r.width == x;
      }
      r.fluxNX - 1 - ScaledFloor(x / r.width, r.fluxNX)
  }

  /** Height of the aim point above the bottom of the surface. */
  function VerticalPos(m: Maths, r: Receiver, h: Heliostat): real {
    if IsCylindrical(r.geom) then Relative(r, h).z + r.height / 2.0
    else ReceiverLocal(m, r, h).y
  }

  /** Vertical bin: the clamped fraction of the height, for every geometry. */
  function BinY(m: Maths, r: Receiver, h: Heliostat): (j: int)
    ensures r.fluxNY > 0 ==> 0 <= j < r.fluxNY
  {
    ScaledFloor(ClampedFraction(VerticalPos(m, r, h), r.height), r.fluxNY)
  }

  /** An aim point at the unwrapping seam (atan2 returning pi, the top of
      its range (-pi, pi]) lands in the last column, not one past it. */
  lemma CylinderSeamInLastBin(m: Maths, r: Receiver, h: Heliostat)
    requires IsCylindrical(r.geom) && Azimuth(m, r, h) == PI
    requires 0 < r.fluxNX <= 10000
    ensures BinX(m, r, h) == r.fluxNX - 1
  {
    UpperBoundLandsInLastBin(PI + Azimuth(m, r, h), 2.0 * PI, r.fluxNX);
  }

  /** The planar X bin is mirrored: an aim point on the left edge of the
      face lands in the last column. */
  lemma PlanarLeftEdgeInLastBin(m: Maths, r: Receiver, h: Heliostat)
    requires !IsCylindrical(r.geom) && ReceiverLocal(m, r, h).x == 0.0 && r.width > 0.0
    requires r.fluxNX > 0
    ensures BinX(m, r, h) == r.fluxNX - 1
  {
    assert ReceiverLocal(m, r, h).x / r.width == 0.0;
  }

  /** A heliostat lands in cell (i, j). */
  predicate Lands(m: Maths, r: Receiver, h: Heliostat, i: int, j: int)
    requires OnTarget(r, h) ==> OnSurface(m, r, h)
  {
    OnTarget(r, h) && BinX(m, r, h) == i && BinY(m, r, h) == j
  }

  /** bins[i][j] after the heliostat loop. */
  function Hits(m: Maths, r: Receiver, hs: seq<Heliostat>, i: int, j: int): nat
    requires AllOnSurface(m, r, hs)
    decreases |hs|
  {
    if hs == [] then 0
    else Hits(m, r, hs[..|hs| - 1], i, j) + (if Lands(m, r, hs[|hs| - 1], i, j) then 1 else 0)
  }

  /** lens[i][j] after the heliostat loop. */
  function RadialSum(m: Maths, r: Receiver, hs: seq<Heliostat>, i: int, j: int): real
    requires AllOnSurface(m, r, hs)
    decreases |hs|
  {
    if hs == [] then 0.0
    else RadialSum(m, r, hs[..|hs| - 1], i, j) + (if Lands(m, r, hs[|hs| - 1], i, j) then hs[|hs| - 1].radialPos else 0.0)
  }

  // ---- The accumulators ----

  /** The accumulators after the heliostat loop, as a function of the
      heliostats. */
  function TallyOf(m: Maths, r: Receiver, hs: seq<Heliostat>): (t: Tally)
    requires Binnable(m, r, hs)
    ensures Emittable(r, t)
    ensures forall a, b :: 0 <= a < r.fluxNX && 0 <= b < r.fluxNY ==>
      t.counts[a][b] == Hits(m, r, hs, a, b) && t.sums[a][b] == RadialSum(m, r, hs, a, b)
  {
    Tally(seq(r.fluxNX, a => seq(r.fluxNY, b => Hits(m, r, hs, a, b))),
          seq(r.fluxNX, a => seq(r.fluxNY, b => RadialSum(m, r, hs, a, b))))
  }

  /** The scatter data of the aim-point plot, in row-major order. */
  function ScatterPoints(m: Maths, r: Receiver, hs: seq<Heliostat>): seq<ScatterPoint>
    requires Binnable(m, r, hs)
  {
    Emitted(r, TallyOf(m, r, hs))
  }

  /** The heliostat loop: bins counts the heliostats of each cell and lens
      adds up their radial positions. */
  method AccumulateBins(m: Maths, r: Receiver, hs: seq<Heliostat>, bins: array2<nat>, lens: array2<real>)
    requires Binnable(m, r, hs)
    requires bins.Length0 == r.fluxNX && bins.Length1 == r.fluxNY
    requires lens.Length0 == r.fluxNX && lens.Length1 == r.fluxNY
    requires forall a, b :: 0 <= a < r.fluxNX && 0 <= b < r.fluxNY ==> bins[a, b] == 0 && lens[a, b] == 0.0
    modifies bins, lens
    ensures forall a, b :: 0 <= a < r.fluxNX && 0 <= b < r.fluxNY ==>
      bins[a, b] == Hits(m, r, hs, a, b) && lens[a, b] == RadialSum(m, r, hs, a, b)
  {
    var k := 0;
    while k < |hs|
      invariant 0 <= k <= |hs|
      invariant AllOnSurface(m, r, hs[..k])
      invariant forall a, b :: 0 <= a < r.fluxNX && 0 <= b < r.fluxNY ==>
        bins[a, b] == Hits(m, r, hs[..k], a, b) && lens[a, b] == RadialSum(m, r, hs[..k], a, b)
    {
      var h := hs[k];
      assert hs[..k + 1] == hs[..k] + [h];
      forall a, b | 0 <= a < r.fluxNX && 0 <= b < r.fluxNY
        ensures Hits(m, r, hs[..k + 1], a, b) == Hits(m, r, hs[..k], a, b) + (if Lands(m, r, h, a, b) then 1 else 0)
        ensures RadialSum(m, r, hs[..k + 1], a, b) == RadialSum(m, r, hs[..k], a, b) + (if Lands(m, r, h, a, b) then h.radialPos else 0.0)
      {
        CellSnoc(m, r, hs[..k], h, a, b);
      }
      if h.receiver == r.id {
        var binx, biny := BinX(m, r, h), BinY(m, r, h);
        bins[binx, biny] := bins[binx, biny] + 1;
        lens[binx, biny] := lens[binx, biny] + h.radialPos;
      }
      k := k + 1;
    }
    assert hs[..|hs|] == hs;
  }

  /** The scatter data of the aim-point plot: the two local accumulators
      start at zero, are filled by the heliostat loop and are read back as
      a sparse list. */
  method BinAimPoints(m: Maths, r: Receiver, hs: seq<Heliostat>) returns (fdata: seq<ScatterPoint>)
    requires Binnable(m, r, hs)
    ensures fdata == ScatterPoints(m, r, hs)
  {
    var bins := new nat[r.fluxNX, r.fluxNY]((_, _) => 0);
    var lens := new real[r.fluxNX, r.fluxNY]((_, _) => 0.0);
    AccumulateBins(m, r, hs, bins, lens);
    fdata := EmitPoints(r, bins, lens, TallyOf(m, r, hs));
  }

  /** p is the point of cell (a, b): the cell was hit, and p sits at its
      centre with the mean radial position and the number of hits. */
  predicate IsCellPoint(m: Maths, r: Receiver, hs: seq<Heliostat>, a: int, b: int, p: ScatterPoint)
    requires Binnable(m, r, hs)
  {
    0 <= a < r.fluxNX && 0 <= b < r.fluxNY && Hits(m, r, hs, a, b) > 0 &&
    p == ScatterPoint(CellX(r, a), CellY(r, b), RadialSum(m, r, hs, a, b) / Hits(m, r, hs, a, b) as real,
                      Hits(m, r, hs, a, b))
  }

  /** The emitted list, read as a set, holds exactly one point per cell
      that some heliostat of the receiver hit. */
  lemma ScatterPointsAreCells(m: Maths, r: Receiver, hs: seq<Heliostat>, p: ScatterPoint)
    requires Binnable(m, r, hs)
    ensures p in ScatterPoints(m, r, hs) <==> exists a, b :: IsCellPoint(m, r, hs, a, b, p)
  {
    var t := TallyOf(m, r, hs);
    EmittedMembers(r, t, p);
    if p in ScatterPoints(m, r, hs) {
      var a, b :| 0 <= a < r.fluxNX && 0 <= b < r.fluxNY && t.counts[a][b] > 0 && p == CellPoint(r, t, a, b);
      assert IsCellPoint(m, r, hs, a, b, p);
    }
    if exists a, b :: IsCellPoint(m, r, hs, a, b, p) {
      var a, b :| IsCellPoint(m, r, hs, a, b, p);
      assert p == CellPoint(r, t, a, b);
    }
  }

  // ---- Conservation: the emitted counts add up to the counted heliostats ----

  /** The heliostats assigned to the receiver, in order. */
  function OnTargetOnly(r: Receiver, hs: seq<Heliostat>): seq<Heliostat>
    decreases |hs|
  {
    if hs == [] then []
    else OnTargetOnly(r, hs[..|hs| - 1]) + (if OnTarget(r, hs[|hs| - 1]) then [hs[|hs| - 1]] else [])
  }

  /** Appending one heliostat adds it to its own cell and to no other. */
  lemma CellSnoc(m: Maths, r: Receiver, hs: seq<Heliostat>, h: Heliostat, i: int, j: int)
    requires AllOnSurface(m, r, hs + [h])
    requires OnTarget(r, h) ==> OnSurface(m, r, h)
    ensures AllOnSurface(m, r, hs)
    ensures Hits(m, r, hs + [h], i, j) == Hits(m, r, hs, i, j) + (if Lands(m, r, h, i, j) then 1 else 0)
    ensures RadialSum(m, r, hs + [h], i, j) == RadialSum(m, r, hs, i, j) + (if Lands(m, r, h, i, j) then h.radialPos else 0.0)
  {
    assert (hs + [h])[..|hs|] == hs;
    assert forall k :: 0 <= k < |hs| ==> hs[k] == (hs + [h])[k];
  }

  /** Appending one heliostat adds one to the total before (i, j) exactly
      when it is counted in a cell before (i, j). */
  lemma {:induction false} TotalBeforeSnoc(m: Maths, r: Receiver, hs: seq<Heliostat>, h: Heliostat, i: nat, j: nat)
    requires Binnable(m, r, hs + [h])
    requires OnTarget(r, h) ==> OnSurface(m, r, h)
    requires Position(r, i, j)
    ensures Binnable(m, r, hs)
    ensures TotalBefore(r, TallyOf(m, r, hs + [h]), i, j) == TotalBefore(r, TallyOf(m, r, hs), i, j) +
      (if OnTarget(r, h) && Precedes(BinX(m, r, h), BinY(m, r, h), i, j) then 1 else 0)
    decreases i, j
  {
    CellSnoc(m, r, hs, h, 0, 0);
    if j > 0 {
      TotalBeforeSnoc(m, r, hs, h, i, j - 1);
      CellSnoc(m, r, hs, h, i, j - 1);
    } else if i > 0 {
      TotalBeforeSnoc(m, r, hs, h, i - 1, r.fluxNY);
    }
  }

  lemma {:induction false} NoHeliostatsNoHits(m: Maths, r: Receiver, i: nat, j: nat)
    requires r.fluxNX > 0 && r.fluxNY > 0 && Position(r, i, j)
    ensures TotalBefore(r, TallyOf(m, r, []), i, j) == 0
    decreases i, j
  {
    if j > 0 {
      NoHeliostatsNoHits(m, r, i, j - 1);
    } else if i > 0 {
      NoHeliostatsNoHits(m, r, i - 1, r.fluxNY);
    }
  }

  /** Every counted heliostat lands in exactly one cell of the grid. */
  lemma {:induction false} TallyCountsOnTarget(m: Maths, r: Receiver, hs: seq<Heliostat>)
    requires Binnable(m, r, hs)
    ensures Total(r, TallyOf(m, r, hs)) == |OnTargetOnly(r, hs)|
    decreases |hs|
  {
    if hs == [] {
      NoHeliostatsNoHits(m, r, r.fluxNX, 0);
    } else {
      var p, h := hs[..|hs| - 1], hs[|hs| - 1];
      assert p + [h] == hs;
      TotalBeforeSnoc(m, r, p, h, r.fluxNX, 0);
      TallyCountsOnTarget(m, r, p);
      assert |OnTargetOnly(r, hs)| == |OnTargetOnly(r, p)| + (if OnTarget(r, h) then 1 else 0);
      assert OnTarget(r, h) ==> BinX(m, r, h) < r.fluxNX;
    }
  }

  /** Conservation: the counts of the emitted points add up to the number
      of heliostats assigned to the receiver. */
  lemma ScatterConservesHeliostats(m: Maths, r: Receiver, hs: seq<Heliostat>)
    requires Binnable(m, r, hs)
    ensures SumCounts(ScatterPoints(m, r, hs)) == |OnTargetOnly(r, hs)|
  {
    EmittedCountsTotal(r, TallyOf(m, r, hs));
    TallyCountsOnTarget(m, r, hs);
  }

  /** Every emitted point stands for at least one heliostat, so there are
      never more points than heliostats assigned to the receiver. */
  lemma ScatterPointsNonEmpty(m: Maths, r: Receiver, hs: seq<Heliostat>)
    requires Binnable(m, r, hs)
    ensures forall k :: 0 <= k < |ScatterPoints(m, r, hs)| ==> ScatterPoints(m, r, hs)[k].count > 0
    ensures |ScatterPoints(m, r, hs)| <= |OnTargetOnly(r, hs)|
  {
    EmittedNonEmpty(r, TallyOf(m, r, hs));
    TallyCountsOnTarget(m, r, hs);
  }

  // ---- Heliostats of other receivers change nothing ----

  lemma {:induction false} FilterOnSurface(m: Maths, r: Receiver, hs: seq<Heliostat>)
    requires AllOnSurface(m, r, hs)
    ensures AllOnSurface(m, r, OnTargetOnly(r, hs))
    decreases |hs|
  {
    if hs != [] {
      var p, h := hs[..|hs| - 1], hs[|hs| - 1];
      assert forall k :: 0 <= k < |p| ==> p[k] == hs[k];
      FilterOnSurface(m, r, p);
      var f := OnTargetOnly(r, p);
      if OnTarget(r, h) {
        assert OnTargetOnly(r, hs) == f + [h];
        assert forall k :: 0 <= k < |f| ==> (f + [h])[k] == f[k];
      } else {
        assert OnTargetOnly(r, hs) == f;
      }
    }
  }

  lemma {:induction false} FilterKeepsCells(m: Maths, r: Receiver, hs: seq<Heliostat>, i: int, j: int)
    requires AllOnSurface(m, r, hs)
    ensures AllOnSurface(m, r, OnTargetOnly(r, hs))
    ensures Hits(m, r, OnTargetOnly(r, hs), i, j) == Hits(m, r, hs, i, j)
    ensures RadialSum(m, r, OnTargetOnly(r, hs), i, j) == RadialSum(m, r, hs, i, j)
    decreases |hs|
  {
    FilterOnSurface(m, r, hs);
    if hs != [] {
      var p, h := hs[..|hs| - 1], hs[|hs| - 1];
      assert forall k :: 0 <= k < |p| ==> p[k] == hs[k];
      FilterKeepsCells(m, r, p, i, j);
      var f := OnTargetOnly(r, p);
      if OnTarget(r, h) {
        assert OnTargetOnly(r, hs) == f + [h];
        CellSnoc(m, r, f, h, i, j);
      } else {
        assert OnTargetOnly(r, hs) == f;
      }
    }
  }

  /** The receiver filter is the only selection: the scatter of all
      heliostats equals the scatter of those assigned to the receiver. */
  lemma ScatterIgnoresOtherReceivers(m: Maths, r: Receiver, hs: seq<Heliostat>)
    requires Binnable(m, r, hs)
    ensures Binnable(m, r, OnTargetOnly(r, hs))
    ensures ScatterPoints(m, r, hs) == ScatterPoints(m, r, OnTargetOnly(r, hs))
  {
    FilterOnSurface(m, r, hs);
    var f := OnTargetOnly(r, hs);
    forall a, b | 0 <= a < r.fluxNX && 0 <= b < r.fluxNY
      ensures TallyOf(m, r, hs).counts[a][b] == TallyOf(m, r, f).counts[a][b]
      ensures TallyOf(m, r, hs).sums[a][b] == TallyOf(m, r, f).sums[a][b]
    {
      FilterKeepsCells(m, r, hs, a, b);
    }
    TallyExtensional(TallyOf(m, r, hs), TallyOf(m, r, f), r.fluxNX, r.fluxNY);
  }
}
