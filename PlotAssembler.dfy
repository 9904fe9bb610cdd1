/** The data side of the paint routine: the axes for the receiver, then,
    for the geometries the plot draws, either the flux map or the aim-point
    scatter, depending on the plot type. */
module PlotAssembler {
  import opened PlotMath
  import opened Receivers
  import opened AxisClassifier
  import opened FluxGridAdapter
  import opened ScatterEmission
  import opened AimBinner

  const FLUX_MAP: int := 0
  const AIM_SCATTER: int := 1

  datatype Dataset = Contour(image: FluxImage) | Scatter(points: seq<ScatterPoint>) | Blank

  /** Axes, the units set for the plot (None when none is set) and the data. */
  datatype Plot = Plot(axes: Axes, units: Option<string>, data: Dataset)

  /** The geometries whose surface is drawn; the planar ellipse and the open
      and cavity polygons are left blank. */
  predicate DrawsSurface(geom: int) {
    geom == CYLINDRICAL_CLOSED || geom == CYLINDRICAL_OPEN || geom == CYLINDRICAL_CAV ||
    geom == PLANE_RECT || geom == POLYGON_CLOSED
  }

  method PlotData(m: Maths, r: Receiver, plotType: int, fg: Grid, hs: seq<Heliostat>) returns (p: Plot)
    requires DrawsSurface(r.geom) && plotType == FLUX_MAP ==> FluxCopyDefined(fg, r.fluxNX, r.fluxNY)
    requires DrawsSurface(r.geom) && plotType == AIM_SCATTER ==> Binnable(m, r, hs)
    ensures p.axes == AxesFor(r)
    ensures p.data.Contour? <==> DrawsSurface(r.geom) && plotType == FLUX_MAP
    ensures p.data.Scatter? <==> DrawsSurface(r.geom) && plotType == AIM_SCATTER
    ensures p.data.Contour? ==> AdaptedFrom(p.data.image, fg, r.fluxNX, r.fluxNY) && p.units == Some(" kW/m2")
    ensures p.data.Scatter? ==> p.data.points == ScatterPoints(m, r, hs) && p.units == Some(" m")
    ensures p.data.Blank? ==> p.units == None
  {
    var axes := AxesFor(r);
    if DrawsSurface(r.geom) && plotType == FLUX_MAP {
      var img := AdaptFluxGrid(fg, r.fluxNX, r.fluxNY);
      p := Plot(axes, Some(" kW/m2"), Contour(img));
    } else if DrawsSurface(r.geom) && plotType == AIM_SCATTER {
      var points := BinAimPoints(m, r, hs);
      p := Plot(axes, Some(" m"), Scatter(points));
    } else {
      p := Plot(axes, None, Blank);
    }
  }
}
