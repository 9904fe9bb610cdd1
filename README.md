# Flux plot geometry-to-plot-space engine (SolarPILOT `FluxPlot`)

This project models the data side of SolarPILOT's receiver flux plot, `app/FluxPlot.cpp`. Given a receiver and the heliostats of a simulated field, the plot produces axes and a data array for one of two views:

- **Axes.** For each of the eight receiver geometry codes (closed, open and cavity cylinders, planar rectangle and ellipse, closed, open and cavity polygons) the X extent, the X centre and whether X is an angle. The Y axis always spans `[0, height]`, and X is always drawn reversed so that the CCW bound of the surface appears on the right.
- **Flux map.** The flux grid of the first flux surface is copied as it is when its row count and first-row length match the declared resolution `fluxNX x fluxNY`. Otherwise a fixed 40 x 40 crescent of 0s and 1s stands in as the "no data" placeholder.
- **Data table.** The same grid is copied with its rows in reverse order.
- **Aim-point scatter.** Every heliostat assigned to the receiver is mapped to a bin. Cylinders use the unwrapped azimuth. Planes and polygons use receiver-local coordinates, mirrored in X. Each bin accumulates a hit count and a sum of radial positions. Every non-empty bin becomes one point `(x centre, y centre, mean radial position, count)`, in row-major order.

Modules, one file each:

- `PlotMath`: constants, `std::min`/`std::max`, the clamp to `[0, 0.9999]` and the floor that yields a bin index.
- `Receivers`: geometry codes, the receiver and heliostat records.
- `AxisClassifier`: the geometry switch.
- `FluxGridAdapter`: the shape check and copy, the placeholder, the table export.
- `AimBinner`: projection, binning and accumulation of the aim points, and the properties of the resulting scatter.
- `ScatterEmission`: the grid loop that reads the two accumulators (`bins` and `lens`, together a `Tally`) back as a sparse list, and the properties of that list for any accumulator contents.
- `PlotAssembler`: the dispatch on geometry and plot type.

Inputs and library calls:

- The receiver, its var-map values, its flux grid and the heliostat list are plain inputs.
- `atan2` and `Toolbox::rotation` are fields of a `Maths` value passed in. They are not defined.
- `sqrt` is replaced by comparing squared distances. `SqrtComparison` proves that this gives the same test.
- Arithmetic is on `real`.
- Three behaviours of the code that are easy to misread:
  - The flux-map path copies the grid without reversing it. Only the table export reverses rows (`ExportIsReversedFluxMap`).
  - The closed-cylinder axis is the closed range `[-180, 180]`.
  - The polygon extents are computed as written (see Findings).

## Model

| member | source | states |
|---|---|---|
| `PlotMath.ClampedFraction` | app/FluxPlot.cpp:372 | `max(0, min(0.9999, num/den))` always lies in `[0, 0.9999]`; it is the quotient when the quotient lies in that range, 0 below it and 0.9999 above it; a zero denominator gives the IEEE outcome (0 for a negative numerator, 0.9999 otherwise) |
| `PlotMath.ScaledFloor` | app/FluxPlot.cpp:361 | the floor of `f * n` is within 1 of `f * n`, and for `0 <= f < 1` and `n > 0` it is a valid bin index `[0, n)` |
| `PlotMath.UpperBoundLandsInLastBin` | app/FluxPlot.cpp:372 | a coordinate exactly at the top of its range bins into index `n - 1`, not `n`, for up to 10000 bins |
| `AxisClassifier.TotalSurfaceWidth` | app/FluxPlot.cpp:179-184 | the loop over the flux surfaces returns the sum of their widths |
| `AxisClassifier.SumWidthsNonNegative` | app/FluxPlot.cpp:180-184 | non-negative surface widths give a non-negative total width |
| `AxisClassifier.AxesFor` | app/FluxPlot.cpp:142-214 | for every geometry code, Y is `[0, height]`, X is reversed, X is angular exactly for codes 0-2, the X label depends only on whether X is angular, the Y label is fixed, and only the closed cylinder wraps |
| `AxisClassifier.CylindricalXAxis` | app/FluxPlot.cpp:144-157 | the closed cylinder has X `[-180, 180]`, centre 0, angular; the open and cavity cylinders have X `[span_min, span_max]`, centre `panel_rotation`, angular |
| `AxisClassifier.PlanarXAxisSymmetric` | app/FluxPlot.cpp:158-163 | the plane rectangle and ellipse have X symmetric about 0 and exactly `width` wide, not angular, ordered whenever `width >= 0` |
| `AxisClassifier.PolygonRangeDefined` | app/FluxPlot.cpp:170-192 | the degree conversion cancels; the polygon extents are finite exactly when the span is non-empty, and are `[-(1 - f*w)*w, f*w*w]` for the span fraction `f` of the rotation and total width `w` |
| `AxisClassifier.PolygonXAxisWidth` | app/FluxPlot.cpp:180-193 | a polygon's X extent is exactly the total surface width wide, its centre is reset to 0, and it is not angular |
| `AxisClassifier.XRangeOrdered` | app/FluxPlot.cpp:142-198 | with an ordered span, a non-negative plane width and non-negative surface widths, no geometry yields `min > max` |
| `AxisClassifier.PolygonZeroPointOutsideAxis` | app/FluxPlot.cpp:188-192 | span 0..90, rotation 45, width 10: the code yields `[40, 50]` where `[-5, 5]` is intended |
| `AxisClassifier.IntendedPolygonRange` | app/FluxPlot.cpp:186-192 | the intended polygon extents exist exactly for a non-empty span and are as wide as the total width |
| `AxisClassifier.IntendedPolygonRangeHoldsZero` | app/FluxPlot.cpp:186-192 | the intended polygon extents contain the zero point whenever the rotation lies within the span |
| `FluxGridAdapter.NoDataCell` | app/FluxPlot.cpp:285-296 | a placeholder cell is 0 or 1, and it is 1 exactly when the cell is inside the first disc and outside the second |
| `FluxGridAdapter.SqrtComparison` | app/FluxPlot.cpp:291-295 | for a non-negative root, comparing the distance with the radius is the same as comparing the squared distance with the squared radius, both ways |
| `FluxGridAdapter.NoDataPatternUnique` | app/FluxPlot.cpp:265-298 | the placeholder is one fixed grid: any two 40 x 40 grids meeting its definition are equal |
| `FluxGridAdapter.NoDataPatternIsCrescent` | app/FluxPlot.cpp:270-296 | the placeholder is neither blank nor full (cell (31, 23) is 1, cell (16, 23) is 0) |
| `FluxGridAdapter.FallbackPattern` | app/FluxPlot.cpp:265-298 | the nested loop yields exactly 40 x 40 cells, each equal to `NoDataCell` |
| `FluxGridAdapter.AdaptFluxGrid` | app/FluxPlot.cpp:246-267 | measured data exactly when the row count is `fnx` and the first row is `fny` long; then the result is the `fnx x fny` grid with `data[i][j] == fg[i][j]`; otherwise the 40 x 40 placeholder |
| `FluxGridAdapter.ExportTable` | app/FluxPlot.cpp:49-60 | the table is `fnx x fny` with `table[i][j] == fg[fnx-1-i][j]` |
| `FluxGridAdapter.ReverseRowsInvolution` | app/FluxPlot.cpp:57-60 | reversing the rows twice gives back the grid |
| `FluxGridAdapter.ExportIsReversedFluxMap` | app/FluxPlot.cpp:55-60 | the exported table is the plotted flux grid with its rows reversed, and reversing the table again gives back the plotted grid |
| `AimBinner.BinX` | app/FluxPlot.cpp:353-371 | the horizontal bin of a counted heliostat lies in `[0, fluxNX)`: always for cylinders (clamp), for planes and polygons when the aim point falls on the face |
| `AimBinner.BinY` | app/FluxPlot.cpp:372 | the vertical bin lies in `[0, fluxNY)` for every geometry (clamp) |
| `AimBinner.CylinderSeamInLastBin` | app/FluxPlot.cpp:356-361 | an aim point at azimuth pi, the top of the atan2 range, bins into the last column |
| `AimBinner.PlanarLeftEdgeInLastBin` | app/FluxPlot.cpp:365-370 | the planar X bin is mirrored: the left edge of the face bins into the last column |
| `AimBinner.AccumulateBins` | app/FluxPlot.cpp:341-377 | after the heliostat loop each cell holds the number of heliostats of the receiver binned there and the sum of their radial positions |
| `ScatterEmission.EmitPoints` | app/FluxPlot.cpp:379-412 | the grid loop over arrays holding a tally emits exactly the row-major list of that tally's cell points, one per non-empty bin |
| `ScatterEmission.EmitRow` | app/FluxPlot.cpp:396-410 | the inner loop over column `i` extends the points of the cells before column `i` by the points of that column's non-empty cells, in order |
| `ScatterEmission.EmittedMembers` | app/FluxPlot.cpp:394-412 | a point is emitted exactly when it is the point of some non-empty cell, at that cell's centre |
| `ScatterEmission.EmittedCountsTotal` | app/FluxPlot.cpp:394-412 | the counts of the emitted points add up to the sum of all the bins |
| `ScatterEmission.EmittedNonEmpty` | app/FluxPlot.cpp:401 | every emitted point has a count of at least 1, so there are never more points than the sum of the bins |
| `AimBinner.ScatterPointsAreCells` | app/FluxPlot.cpp:341-412 | read as a set, the scatter holds exactly the points of the cells some heliostat of the receiver hit, each at its cell centre with the mean radial position and the number of hits |
| `AimBinner.BinAimPoints` | app/FluxPlot.cpp:334-412 | the whole aim-point path returns the row-major sparse list of non-empty bins for the heliostats given |
| `AimBinner.ScatterConservesHeliostats` | app/FluxPlot.cpp:341-412 | the counts of the emitted points add up to the number of heliostats assigned to the receiver |
| `AimBinner.ScatterPointsNonEmpty` | app/FluxPlot.cpp:401-409 | every emitted point has a count of at least 1, so there are never more points than heliostats on the receiver |
| `AimBinner.ScatterIgnoresOtherReceivers` | app/FluxPlot.cpp:343 | heliostats of other receivers change nothing: the scatter equals the scatter of the receiver's own heliostats |
| `PlotAssembler.PlotData` | app/FluxPlot.cpp:220-420 | the axes are those of the geometry; a flux map exactly for drawn geometries and plot type 0, with units kW/m2; a scatter exactly for drawn geometries and plot type 1, with units m; nothing for the planar ellipse, the open and cavity polygons, unknown codes and other plot types |

## Left out

- Window, bitmap and device-context handling, `OnPaint`, `OnEraseBackground`, the window-size fallbacks to 1024 x 711, `DrawBitmap` and `DrawText`: this is user-interface plumbing that holds no data logic.
- `PlotContourf::Plot`, `PlotScatter::Plot`, `ExportDataTable` and the grayscale colormap swap around the placeholder: these are rendering and file output. The model stops at the arrays handed to them.
- The constructor, `SetZRange`, `SetPlotData`, `SetFontSize`, `SetColormap` and the other setters and getters: these are trivial field accessors.
- Receiver and solar-field accessors (`getReceiverWidth`, `getFluxSurfaces`, var-map values): these are inputs of the model (`Receivers.Receiver`).
- `atan2`, `Toolbox::rotation` and `sqrt`: these are floating-point library calls. The first two are opaque function values. The third is replaced by squared distances.
- Floating-point rounding: the model computes on exact reals. Results that depend on the last bit of a double, such as a placeholder cell exactly on a disc boundary, can differ.
- The planar-ellipse TODO branch and the commented-out polygon boundary drawing: these are unimplemented or dead code. `PlotData` returns `Blank` for those geometries.
- Plot state that persists between paints: the `_plotobj` wrapping flag is set for the closed cylinder and never cleared, and the units set by `SetUnits` for a flux map or a scatter are kept by a later blank paint. The model returns both per call, as `Axes.wrapped` and as `units == None` for a blank plot, and so does not capture a value left over from an earlier paint.
- `AimBinner.BinX`: the planar X bin is not clamped. The model requires every counted planar aim point to fall on the face (`0 <= x < width`) rather than modelling the `std::out_of_range` thrown by `bins.at` otherwise.
- `AimBinner.BinAimPoints`: requires `fluxNX > 0` and `fluxNY > 0`, the receiver's resolution invariant. With an empty grid, `bins.at` would throw for any counted heliostat.
- `FluxGridAdapter.AdaptFluxGrid`: requires that `front()` is not taken of an empty grid (`fnx == 0` with no rows is undefined behaviour). When the shape check passes, it also requires every row to hold `fny` values. The code checks only the first row, and a shorter later row would make `at(j)` throw.
- `FluxGridAdapter.ExportTable`: requires the grid to hold the `fnx x fny` values it reads. The export checks no shape, and `at` would throw otherwise.
- `ScatterEmission.EmitPoints`: the count is stored as a natural number. The code stores it as a `double`, which is exact for these counts.
- `PlotMath.UpperBoundLandsInLastBin`: stated for up to 10000 bins. With more bins, `floor(0.9999 * n)` falls below `n - 1`, so the top bins can never be reached by a clamped coordinate.

## Findings

| source | as written | input that shows it | evidently intended | confidence | as-written member | corrected member |
|---|---|---|---|---|---|---|
| app/FluxPlot.cpp:188-192 | `xaxcent` is already a distance along the total width `rwtot`, yet `xaxmax = xaxcent * rwtot` and `xaxmin = -(1 - xaxcent) * rwtot` multiply by `rwtot` again | span 0..90, rotation 45, total width 10: extents `[40, 50]`, which exclude the zero point the centre is reset to | `xaxmax = f * rwtot`, `xaxmin = -(1 - f) * rwtot` for the span fraction `f`, giving `[-5, 5]` | not executed; high (the units are length squared) | `AxisClassifier.PolygonZeroPointOutsideAxis` | `AxisClassifier.IntendedPolygonRangeHoldsZero` |

For the polygon, `AxesFor` keeps the formula as written, because that is what the plot receives. The intended extents are modelled only for the comparison: `IntendedPolygonRange`, with the zero-point property proved about it.
