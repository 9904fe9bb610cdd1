/** The dense data of the flux-map plot: the flux grid of the first flux
    surface copied as it is when its shape matches the declared resolution,
    a fixed 40 x 40 crescent standing in for it otherwise, and the
    row-reversed copy written to the data table. */
module FluxGridAdapter {

  type Grid = seq<seq<real>>

  /** What the contour plot is given: measured flux, or the "no data"
      placeholder. */
  datatype FluxImage = Measured(data: Grid) | NoData(data: Grid)

  /** g has exactly n rows of exactly m values. */
  predicate IsDense(g: Grid, n: nat, m: nat) {
    |g| == n && forall i :: 0 <= i < n ==> |g[i]| == m
  }

  /** The first n rows of g exist and hold at least m values each, so that
      every read at(i).at(j) with i < n, j < m succeeds. */
  predicate RowsAtLeast(g: Grid, n: nat, m: nat) {
    |g| >= n && forall i :: 0 <= i < n ==> |g[i]| >= m
  }

  /** The shape test of the flux-map path: the row count and the length of
      the FIRST row, and only those, are compared with fnx and fny. */
  predicate ShapeMatches(fg: Grid, fnx: nat, fny: nat) {
    |fg| == fnx && fg != [] && |fg[0]| == fny
  }

  /** The shape test and the copy behind it are defined: front() is not
      taken of an empty grid, and once the shape test passes every row is
      long enough for the copy. */
  predicate FluxCopyDefined(fg: Grid, fnx: nat, fny: nat) {
    (|fg| == fnx ==> fg != []) &&
    (ShapeMatches(fg, fnx, fny) ==> RowsAtLeast(fg, fnx, fny))
  }

  /** d is the n x m grid read from fg cell by cell. */
  predicate IsCopyOf(d: Grid, fg: Grid, n: nat, m: nat)
    requires RowsAtLeast(fg, n, m)
  {
    IsDense(d, n, m) &&
    forall i, j :: 0 <= i < n && 0 <= j < m ==> d[i][j] == fg[i][j]
  }

  /** d is the n x m grid read from fg with its rows in reverse order. */
  predicate IsReversedCopyOf(d: Grid, fg: Grid, n: nat, m: nat)
    requires RowsAtLeast(fg, n, m)
  {
    IsDense(d, n, m) &&
    forall i, j :: 0 <= i < n && 0 <= j < m ==> d[i][j] == fg[n - 1 - i][j]
  }

  // ---- The "no data" placeholder ----

  const FALLBACK_N: nat := 40
  const CF: real := 0.4
  const CFP: real := CF - 0.2
  const RL: real := 0.4

  /** The C++ conversion int(x), which truncates toward zero. */
  function Trunc(x: real): int {
    if x >= 0.0 then x.Floor else -((-x).Floor)
  }

  /** Cell (i, j) of the placeholder lies within RL of the first centre and
      beyond RL of the second; distances are compared squared, which is the
      same test as comparing their square roots (SqrtComparison). */
  predicate InCrescent(i: int, j: int) {
    var n := FALLBACK_N as real;
    var xc := Trunc(CF * n) as real;
    var yc := Trunc(CF * n) as real;
    var xcp := Trunc(CFP * n) as real;
    var ycp := Trunc(CFP * n) as real;
    var dxc := (i as real - xc) / n;
    var dyc := ((FALLBACK_N - 1 - j) as real - yc) / n;
    var dxcp := (i as real - xcp) / n;
    var dycp := ((FALLBACK_N - 1 - j) as real - ycp) / n;
    dxc * dxc + dyc * dyc < RL * RL && dxcp * dxcp + dycp * dycp > RL * RL
  }

  function NoDataCell(i: int, j: int): (v: real)
    ensures v == 0.0 || v == 1.0
    ensures v == 1.0 <==> InCrescent(i, j)
  {
    if InCrescent(i, j) then 1.0 else 0.0
  }

  predicate IsNoDataPattern(g: Grid) {
    IsDense(g, FALLBACK_N, FALLBACK_N) &&
    forall i, j :: 0 <= i < FALLBACK_N && 0 <= j < FALLBACK_N ==> g[i][j] == NoDataCell(i, j)
  }

  /** For a non-negative root rc of v and a positive radius rl, comparing
      rc with rl is comparing v with rl * rl. */
  lemma SqrtComparison(rc: real, v: real, rl: real)
    requires rc >= 0.0 && rc * rc == v && rl > 0.0
    ensures rc < rl <==> v < rl * rl
    ensures rc > rl <==> v > rl * rl
  {
    // rl * rl - v factors as (rl - rc) * (rl + rc), whose second factor is positive
    var d := rl - rc;
    var s := rl + rc;
    assert s > 0.0;
    assert rl * rl - v == d * s;
    if d > 0.0 {
      assert d * s > 0.0;
    } else if d < 0.0 {
      assert d * s < 0.0;
    }
  }

  /** The placeholder is a single fixed grid: any two grids that satisfy
      IsNoDataPattern are equal, so it carries no hidden state. */
  lemma NoDataPatternUnique(g1: Grid, g2: Grid)
    requires IsNoDataPattern(g1) && IsNoDataPattern(g2)
    ensures g1 == g2
  {
    forall i | 0 <= i < FALLBACK_N
      ensures g1[i] == g2[i]
    {
      assert forall j :: 0 <= j < FALLBACK_N ==> g1[i][j] == g2[i][j];
    }
  }

  /** The placeholder is a visible crescent: neither blank nor full. */
  lemma NoDataPatternIsCrescent()
    ensures NoDataCell(31, 23) == 1.0
    ensures NoDataCell(16, 23) == 0.0
  {
  }

  /** The nested loop that fills the placeholder. */
  method FallbackPattern() returns (ddat: Grid)
    ensures IsNoDataPattern(ddat)
  {
    var nx := FALLBACK_N;
    var ny := nx;
    ddat := seq(nx, _ => seq(ny, _ => 0.0));
    var i := 0;
    while i < nx
      invariant 0 <= i <= nx
      invariant IsDense(ddat, nx, ny)
      invariant forall a, b :: 0 <= a < i && 0 <= b < ny ==> ddat[a][b] == NoDataCell(a, b)
      invariant forall a, b :: i <= a < nx && 0 <= b < ny ==> ddat[a][b] == 0.0
    {
      var j := 0;
      while j < ny
        invariant 0 <= j <= ny
        invariant IsDense(ddat, nx, ny)
        invariant forall a, b :: 0 <= a < i && 0 <= b < ny ==> ddat[a][b] == NoDataCell(a, b)
        invariant forall b :: 0 <= b < j ==> ddat[i][b] == NoDataCell(i, b)
        invariant forall b :: j <= b < ny ==> ddat[i][b] == 0.0
        invariant forall a, b :: i < a < nx && 0 <= b < ny ==> ddat[a][b] == 0.0
      {
        if InCrescent(i, j) {
          ddat := ddat[i := ddat[i][j := 1.0]];
        }
        j := j + 1;
      }
      i := i + 1;
    }
  }

  // ---- The flux-map path ----

  /** What the flux-map path hands to the contour plot. */
  predicate AdaptedFrom(img: FluxImage, fg: Grid, fnx: nat, fny: nat)
    requires FluxCopyDefined(fg, fnx, fny)
  {
    (img.Measured? <==> ShapeMatches(fg, fnx, fny)) &&
    (img.Measured? ==> IsCopyOf(img.data, fg, fnx, fny)) &&
    (img.NoData? ==> IsNoDataPattern(img.data))
  }

  /** The shape check and the copy of the flux-map path: the grid is copied
      without reordering when its shape matches, and replaced by the
      placeholder otherwise. */
  method AdaptFluxGrid(fg: Grid, fnx: nat, fny: nat) returns (img: FluxImage)
    requires FluxCopyDefined(fg, fnx, fny)
    ensures AdaptedFrom(img, fg, fnx, fny)
  {
    var fdata := seq(fnx, _ => seq(fny, _ => 0.0));
    var datok := false;
    if |fg| == fnx {
      if |fg[0]| == fny {
        datok := true;
        var i := 0;
        while i < fnx
          invariant 0 <= i <= fnx
          invariant IsDense(fdata, fnx, fny)
          invariant forall a, b :: 0 <= a < i && 0 <= b < fny ==> fdata[a][b] == fg[a][b]
        {
          var j := 0;
          while j < fny
            invariant 0 <= j <= fny
            invariant IsDense(fdata, fnx, fny)
            invariant forall a, b :: 0 <= a < i && 0 <= b < fny ==> fdata[a][b] == fg[a][b]
            invariant forall b :: 0 <= b < j ==> fdata[i][b] == fg[i][b]
          {
            fdata := fdata[i := fdata[i][j := fg[i][j]]];
            j := j + 1;
          }
          i := i + 1;
        }
      }
    }
    if !datok {
      var ddat := FallbackPattern();
      img := NoData(ddat);
    } else {
      img := Measured(fdata);
    }
  }

  // ---- The data-table export ----

  /** The copy made for the data table: rows in reverse order. The source
      checks no shape here, so the grid must hold the rows it reads. */
  method ExportTable(fg: Grid, fnx: nat, fny: nat) returns (fdata: Grid)
    requires RowsAtLeast(fg, fnx, fny)
    ensures IsReversedCopyOf(fdata, fg, fnx, fny)
  {
    fdata := seq(fnx, _ => seq(fny, _ => 0.0));
    var i := 0;
    while i < fnx
      invariant 0 <= i <= fnx
      invariant IsDense(fdata, fnx, fny)
      invariant forall a, b :: 0 <= a < i && 0 <= b < fny ==> fdata[a][b] == fg[fnx - 1 - a][b]
    {
      var j := 0;
      while j < fny
        invariant 0 <= j <= fny
        invariant IsDense(fdata, fnx, fny)
        invariant forall a, b :: 0 <= a < i && 0 <= b < fny ==> fdata[a][b] == fg[fnx - 1 - a][b]
        invariant forall b :: 0 <= b < j ==> fdata[i][b] == fg[fnx - 1 - i][b]
      {
        fdata := fdata[i := fdata[i][j := fg[fnx - 1 - i][j]]];
        j := j + 1;
      }
      i := i + 1;
    }
  }

  function ReverseRows(g: Grid): (r: Grid)
    ensures |r| == |g|
    ensures forall i :: 0 <= i < |g| ==> r[i] == g[|g| - 1 - i]
  {
    seq(|g|, i requires 0 <= i < |g| => g[|g| - 1 - i])
  }

  lemma ReverseRowsInvolution(g: Grid)
    ensures ReverseRows(ReverseRows(g)) == g
  {
    var r := ReverseRows(ReverseRows(g));
    assert forall i :: 0 <= i < |g| ==> r[i] == g[i];
  }

  /** The table and the plot differ by exactly one row reversal: the
      exported table is the plotted grid upside down, and reversing the
      table again gives back the plotted grid. */
  lemma ExportIsReversedFluxMap(fg: Grid, fnx: nat, fny: nat, plotted: Grid, table: Grid)
    requires RowsAtLeast(fg, fnx, fny)
    requires IsCopyOf(plotted, fg, fnx, fny)
    requires IsReversedCopyOf(table, fg, fnx, fny)
    ensures table == ReverseRows(plotted)
    ensures ReverseRows(table) == plotted
  {
    var rp := ReverseRows(plotted);
    forall i | 0 <= i < fnx
      ensures table[i] == rp[i]
    {
      forall j | 0 <= j < fny
        ensures table[i][j] == plotted[fnx - 1 - i][j]
      {
      }
    }
    assert table == rp;
    ReverseRowsInvolution(plotted);
  }
}
