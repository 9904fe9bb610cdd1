/** The axis system of the flux plot: per receiver geometry, the extent and
    centre of the X axis and whether it is angular; the Y axis spans the
    receiver height; X is always drawn reversed so that the CCW bound of
    the surface appears on the right. */
module AxisClassifier {
  import opened PlotMath
  import opened Receivers

  datatype XRange = XRange(min: real, max: real)

  /** The X axis: its range (None when the polygon formula divides by a
      zero span and so yields non-finite extents), its centre (None where
      the source leaves it unset) and whether it is an angle. */
  datatype XAxis = XAxis(range: Option<XRange>, centre: Option<real>, isAngle: bool)

  datatype Axes = Axes(
    x: XAxis,
    yMin: real,
    yMax: real,
    xReversed: bool,
    wrapped: bool,
    xLabel: string,
    yLabel: string)

  const ANGLE_LABEL: string := "Receiver circumferential position (0=North, +East) [deg]"
  const LENGTH_LABEL: string := "Receiver horizontal position[m]"
  const Y_LABEL: string := "Receiver vertical position [m]"

  /** Total width of the flux surfaces, summed front to back. */
  function SumWidths(ws: seq<real>): real
    decreases |ws|
  {
    if ws == [] then 0.0 else SumWidths(ws[..|ws| - 1]) + ws[|ws| - 1]
  }

  /** The loop that adds up the surface widths of a polygonal receiver. */
  method TotalSurfaceWidth(ws: seq<real>) returns (rwtot: real)
    ensures rwtot == SumWidths(ws)
  {
    rwtot := 0.0;
    var i := 0;
    while i < |ws|
      invariant 0 <= i <= |ws|
      invariant rwtot == SumWidths(ws[..i])
    {
      assert ws[..i + 1][..i] == ws[..i];
      rwtot := rwtot + ws[i];
      i := i + 1;
    }
    assert ws[..|ws|] == ws;
  }

  lemma {:induction false} SumWidthsNonNegative(ws: seq<real>)
    requires forall k :: 0 <= k < |ws| ==> ws[k] >= 0.0
    ensures SumWidths(ws) >= 0.0
    decreases |ws|
  {
    if ws != [] {
      SumWidthsNonNegative(ws[..|ws| - 1]);
    }
  }

  /** Polygon extents exactly as written: the spans and rotation are turned
      into degrees, the zero point becomes a distance along the total width,
      and that distance is then multiplied by the total width once more. */
  function PolygonRange(spanMin: real, spanMax: real, rotation: real, rwtot: real): Option<XRange>
  {
    var angmin := spanMin * R2D;
    var angmax := spanMax * R2D;
    var angcent := rotation * R2D;
    if angmax - angmin == 0.0 then None
    else
      var cent := (angcent - angmin) / (angmax - angmin) * rwtot;
      Some(XRange(-(1.0 - cent) * rwtot, cent * rwtot))
  }

  /** The X axis of each geometry; an unknown code keeps the initial
      extents (0, 0) and leaves the centre unset. */
  function XAxisFor(r: Receiver): XAxis
  {
    if r.geom == CYLINDRICAL_CLOSED then
      XAxis(Some(XRange(-180.0, 180.0)), Some(0.0), true)
    else if r.geom == CYLINDRICAL_OPEN || r.geom == CYLINDRICAL_CAV then
      XAxis(Some(XRange(r.spanMin, r.spanMax)), Some(r.panelRotation), true)
    else if r.geom == PLANE_RECT || r.geom == PLANE_ELLIPSE then
      XAxis(Some(XRange(-r.width / 2.0, r.width / 2.0)), None, false)
    else if IsPolygon(r.geom) then
      XAxis(PolygonRange(r.spanMin, r.spanMax, r.panelRotation, SumWidths(r.surfaceWidths)), Some(0.0), false)
    else
      XAxis(Some(XRange(0.0, 0.0)), None, false)
  }

  /** The axes handed to the plot, for every geometry. */
  function AxesFor(r: Receiver): (a: Axes)
    ensures a.yMin == 0.0 && a.yMax == r.height
    ensures a.xReversed
    ensures a.x.isAngle <==> 0 <= r.geom <= CYLINDRICAL_CAV
    ensures a.xLabel == (if a.x.isAngle then ANGLE_LABEL else LENGTH_LABEL)
    ensures a.yLabel == Y_LABEL
    ensures a.wrapped <==> r.geom == CYLINDRICAL_CLOSED
  {
    var x := XAxisFor(r);
    Axes(x, 0.0, r.height, true, r.geom == CYLINDRICAL_CLOSED,
         if x.isAngle then ANGLE_LABEL else LENGTH_LABEL, Y_LABEL)
  }

  lemma CylindricalXAxis(r: Receiver)
    requires 0 <= r.geom <= CYLINDRICAL_CAV
    ensures r.geom == CYLINDRICAL_CLOSED ==>
      AxesFor(r).x == XAxis(Some(XRange(-180.0, 180.0)), Some(0.0), true)
    ensures r.geom != CYLINDRICAL_CLOSED ==>
      AxesFor(r).x == XAxis(Some(XRange(r.spanMin, r.spanMax)), Some(r.panelRotation), true)
  {
  }

  lemma PlanarXAxisSymmetric(r: Receiver)
    requires r.geom == PLANE_RECT || r.geom == PLANE_ELLIPSE
    ensures AxesFor(r).x.range.Some? && !AxesFor(r).x.isAngle
    ensures AxesFor(r).x.range.value.min == -AxesFor(r).x.range.value.max
    ensures AxesFor(r).x.range.value.max - AxesFor(r).x.range.value.min == r.width
    ensures r.width >= 0.0 ==> AxesFor(r).x.range.value.min <= AxesFor(r).x.range.value.max
  {
  }

  /** The degree conversion cancels: the polygon range is non-finite
      exactly when the span is empty, and otherwise its zero point sits at
      the fraction of the span where the panel rotation falls. */
  lemma PolygonRangeDefined(spanMin: real, spanMax: real, rotation: real, rwtot: real)
    ensures PolygonRange(spanMin, spanMax, rotation, rwtot).Some? <==> spanMin != spanMax
    ensures spanMin != spanMax ==>
      var f := (rotation - spanMin) / (spanMax - spanMin);
      PolygonRange(spanMin, spanMax, rotation, rwtot).value.min == -(1.0 - f * rwtot) * rwtot &&
      PolygonRange(spanMin, spanMax, rotation, rwtot).value.max == f * rwtot * rwtot
  {
    var angmin := spanMin * R2D;
    var angmax := spanMax * R2D;
    var angcent := rotation * R2D;
    assert angmax - angmin == (spanMax - spanMin) * R2D;
    assert angcent - angmin == (rotation - spanMin) * R2D;
    if spanMin != spanMax {
      assert angmax - angmin != 0.0;
      var f := (rotation - spanMin) / (spanMax - spanMin);
      DegreesCancel(rotation - spanMin, spanMax - spanMin);
      assert (angcent - angmin) / (angmax - angmin) == f;
    }
  }

  lemma DegreesCancel(a: real, b: real)
    requires b != 0.0
    ensures (a * R2D) / (b * R2D) == a / b
  {
    assert (a / b) * (b * R2D) == a * R2D;
  }

  /** For a polygon the X extent is always as wide as the total surface
      width, whatever the zero point, and the returned centre is 0. */
  lemma PolygonXAxisWidth(r: Receiver)
    requires IsPolygon(r.geom) && r.spanMin != r.spanMax
    ensures AxesFor(r).x.range.Some?
    ensures AxesFor(r).x.range.value.max - AxesFor(r).x.range.value.min == SumWidths(r.surfaceWidths)
    ensures AxesFor(r).x.centre == Some(0.0) && !AxesFor(r).x.isAngle
  {
    PolygonRangeDefined(r.spanMin, r.spanMax, r.panelRotation, SumWidths(r.surfaceWidths));
  }

  /** Under the natural conditions on the receiver (an ordered span for the
      open cylinders, a non-negative width for the planes, non-negative
      surface widths for the polygons) no geometry yields min > max. */
  lemma XRangeOrdered(r: Receiver)
    requires (r.geom == CYLINDRICAL_OPEN || r.geom == CYLINDRICAL_CAV) ==> r.spanMin <= r.spanMax
    requires (r.geom == PLANE_RECT || r.geom == PLANE_ELLIPSE) ==> r.width >= 0.0
    requires IsPolygon(r.geom) ==> forall k :: 0 <= k < |r.surfaceWidths| ==> r.surfaceWidths[k] >= 0.0
    ensures AxesFor(r).x.range.Some? ==> AxesFor(r).x.range.value.min <= AxesFor(r).x.range.value.max
  {
    if IsPolygon(r.geom) && r.spanMin != r.spanMax {
      PolygonXAxisWidth(r);
      SumWidthsNonNegative(r.surfaceWidths);
    }
  }

  /** The polygon extents as evidently intended: the zero point at fraction
      f of the span gives [-(1 - f) * rwtot, f * rwtot]. */
  function IntendedPolygonRange(spanMin: real, spanMax: real, rotation: real, rwtot: real): (o: Option<XRange>)
    ensures o.Some? <==> spanMin != spanMax
    ensures o.Some? ==> o.value.max - o.value.min == rwtot
  {
    if spanMax - spanMin == 0.0 then None
    else
      var f := (rotation - spanMin) / (spanMax - spanMin);
      Some(XRange(-(1.0 - f) * rwtot, f * rwtot))
  }

  /** The intended extents contain the zero point (the panel rotation)
      whenever the rotation lies within the span. */
  lemma IntendedPolygonRangeHoldsZero(spanMin: real, spanMax: real, rotation: real, rwtot: real)
    requires spanMin <= rotation <= spanMax && spanMin < spanMax
    requires rwtot >= 0.0
    ensures IntendedPolygonRange(spanMin, spanMax, rotation, rwtot).Some?
    ensures IntendedPolygonRange(spanMin, spanMax, rotation, rwtot).value.min <= 0.0
    ensures 0.0 <= IntendedPolygonRange(spanMin, spanMax, rotation, rwtot).value.max
  {
    var f := (rotation - spanMin) / (spanMax - spanMin);
    assert 0.0 <= f <= 1.0 by {
      assert f * (spanMax - spanMin) == rotation - spanMin;
    }
    assert f * rwtot >= 0.0;
    assert (1.0 - f) * rwtot >= 0.0;
  }

  /** A span of 0..90 with the rotation at 45 on a 10 m wide polygon: the
      intended extents are [-5, 5], but the formula as written yields
      [40, 50], an axis that does not contain its own zero point. */
  lemma PolygonZeroPointOutsideAxis()
    ensures PolygonRange(0.0, 90.0, 45.0, 10.0) == Some(XRange(40.0, 50.0))
    ensures IntendedPolygonRange(0.0, 90.0, 45.0, 10.0) == Some(XRange(-5.0, 5.0))
  {
    PolygonRangeDefined(0.0, 90.0, 45.0, 10.0);
    assert (45.0 - 0.0) / (90.0 - 0.0) == 0.5;
  }
}
