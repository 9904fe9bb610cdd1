/** The inputs the flux plot reads from the solar field: the receiver under
    evaluation (geometry, shape, pose, flux resolution) and the heliostats
    with their aim points. */
module Receivers {
  import opened PlotMath

  // Receiver geometry codes (Receiver::REC_GEOM_TYPE).
  const CYLINDRICAL_CLOSED: int := 0  // continuous closed cylinder, external
  const CYLINDRICAL_OPEN: int := 1    // continuous open cylinder, external
  const CYLINDRICAL_CAV: int := 2     // continuous open cylinder, internal cavity
  const PLANE_RECT: int := 3          // planar rectangle
  const PLANE_ELLIPSE: int := 4       // planar ellipse
  const POLYGON_CLOSED: int := 5      // discrete closed N-polygon, external
  const POLYGON_OPEN: int := 6        // discrete open N-polygon, external
  const POLYGON_CAV: int := 7         // discrete open N-polygon, internal cavity

  /** The aim-point path's test for a cylindrical receiver (`rgeom < 3`). */
  predicate IsCylindrical(geom: int) {
    geom < 3
  }

  predicate IsPolygon(geom: int) {
    geom == POLYGON_CLOSED || geom == POLYGON_OPEN || geom == POLYGON_CAV
  }

  /** A receiver as the plot sees it. `width` is getReceiverWidth (the
      diameter of a cylinder, the width of a plane), `height` is
      rec_height, the spans and panel rotation are the var-map values,
      `surfaceWidths` holds getSurfaceWidth of each flux surface, and
      `fluxNX` x `fluxNY` is the resolution of the first flux surface. */
  datatype Receiver = Receiver(
    id: int,
    geom: int,
    width: real,
    height: real,
    spanMin: real,
    spanMax: real,
    panelRotation: real,
    surfaceWidths: seq<real>,
    azimuthDeg: real,
    elevationDeg: real,
    opticalHeight: real,
    offsetX: real,
    offsetY: real,
    fluxNX: nat,
    fluxNY: nat)

  /** A heliostat: the id of the receiver it is assigned to, its aim point
      and its radial position in the field. */
  datatype Heliostat = Heliostat(receiver: int, aim: Point3, radialPos: real)
}
