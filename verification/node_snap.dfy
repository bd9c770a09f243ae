/**
 * Grid snapping for the node graph (ui/app/src/renderer/NodeGraph/Config.ts,
 * coords.ts and the size snapping of Node.tsx): which snap setting a
 * modifier combination selects, the step each setting snaps to, rounding
 * coordinates to the nearest multiple of the step, node sizes rounded up
 * to the grid, and the bounded zoom.
 *
 * Coordinates and zoom are JavaScript numbers, modelled as reals (no
 * floating-point rounding).
 */
module NodeSnap {
  /** The grid spacing, in world units. */
  const GridSize: int := 10

  /** The zoom range. */
  const ZoomMin: real := 0.2
  const ZoomMax: real := 5.0

  /** A snap setting: no snapping, one grid square, five grid squares, or switched off. */
  datatype SnapKind = SnapNone | OneSquare | FiveSquares | Disabled

  /** The snap setting for each modifier combination. */
  datatype SnapConfig = SnapConfig(plain: SnapKind, ctrl: SnapKind, shift: SnapKind, ctrlShift: SnapKind)

  datatype GridStyle = GridLines | DotMatrix

  datatype Config = Config(canvas: SnapConfig, nodes: SnapConfig, snapNodeSizesToGrid: bool, gridStyle: GridStyle)

  /** The settings the graph starts with. */
  const ConfigDefault: Config :=
    Config(
      SnapConfig(SnapNone, FiveSquares, OneSquare, Disabled),
      SnapConfig(OneSquare, FiveSquares, SnapNone, Disabled),
      true,
      GridLines)

  datatype Coords = Coords(x: real, y: real)

  /** The step a snap setting rounds to: whole units when it does not snap, else one or five grid squares. */
  function SnapKindToNumber(kind: SnapKind): (n: int)
    ensures n >= 1
    ensures n == 1 <==> kind == SnapNone || kind == Disabled
    ensures n % GridSize == 0 <==> kind == OneSquare || kind == FiveSquares
    ensures n <= 5 * GridSize
  {
    match kind
    case SnapNone => 1
    case Disabled => 1
    case OneSquare => GridSize
    case FiveSquares => GridSize * 5
  }

  /** The setting a modifier combination selects: one field of the configuration. */
  function SnapKindForConfig(config: SnapConfig, ctrl: bool, shift: bool): (k: SnapKind)
    ensures k == config.plain || k == config.ctrl || k == config.shift || k == config.ctrlShift
  {
    if ctrl && shift then config.ctrlShift
    else if ctrl then config.ctrl
    else if shift then config.shift
    else config.plain
  }

  /** Each field is read by exactly one modifier combination: changing it changes what that combination selects and nothing else. */
  lemma EachFieldOneCombination(config: SnapConfig, k: SnapKind, ctrl: bool, shift: bool)
    ensures SnapKindForConfig(config.(plain := k), ctrl, shift) == (if !ctrl && !shift then k else SnapKindForConfig(config, ctrl, shift))
    ensures SnapKindForConfig(config.(ctrl := k), ctrl, shift) == (if ctrl && !shift then k else SnapKindForConfig(config, ctrl, shift))
    ensures SnapKindForConfig(config.(shift := k), ctrl, shift) == (if !ctrl && shift then k else SnapKindForConfig(config, ctrl, shift))
    ensures SnapKindForConfig(config.(ctrlShift := k), ctrl, shift) == (if ctrl && shift then k else SnapKindForConfig(config, ctrl, shift))
  {
  }

  /** With the default settings nodes snap to the grid unless shift is held, and the canvas only with a modifier. */
  lemma DefaultSnapping(ctrl: bool, shift: bool)
    ensures SnapKindToNumber(SnapKindForConfig(ConfigDefault.nodes, ctrl, shift)) > 1 <==> !shift
    ensures SnapKindToNumber(SnapKindForConfig(ConfigDefault.canvas, ctrl, shift)) > 1 <==> ctrl != shift
    ensures ctrl && shift ==> SnapKindForConfig(ConfigDefault.nodes, ctrl, shift) == Disabled
  {
  }

  function Abs(v: real): real { if v < 0.0 then -v else v }

  /** `Math.round`: the nearest integer, halves rounded up. */
  function Round(v: real): (r: int)
    ensures v - 0.5 < r as real <= v + 0.5
  {
    (v + 0.5).Floor
  }

  /** The rounded value is at most half away. */
  lemma RoundClose(v: real)
    ensures Abs(Round(v) as real - v) <= 0.5
  {
  }

  /** No integer is nearer than the rounded value. */
  lemma RoundNearest(v: real, k: int)
    ensures Abs(Round(v) as real - v) <= Abs(k as real - v)
  {
    var r := Round(v);
    assert Abs(r as real - v) <= 0.5;
    if k > r {
      assert k as real >= r as real + 1.0;
      assert k as real - v >= 0.5;
    } else if k < r {
      assert k as real <= r as real - 1.0;
      assert v - k as real >= 0.5;
    }
  }

  /** Halves go up, on both sides of zero. */
  lemma RoundHalfUp(k: int)
    ensures Round(k as real + 0.5) == k + 1
    ensures Round(k as real) == k
  {
  }

  /** One coordinate rounded to the nearest multiple of the step. */
  function Snap(v: real, step: real): real
    requires step > 0.0
  {
    Round(v / step) as real * step
  }

  /** A value that is a whole number of steps. */
  predicate OnGrid(v: real, step: real)
    requires step > 0.0
  {
    (v / step).Floor as real == v / step
  }

  /** `coordsSnapToGrid`: both coordinates snapped. */
  function CoordsSnapToGrid(c: Coords, step: real): (r: Coords)
    requires step > 0.0
    ensures OnGrid(r.x, step) && OnGrid(r.y, step)
    ensures Abs(r.x - c.x) <= step / 2.0 && Abs(r.y - c.y) <= step / 2.0
  {
    SnapOnGrid(c.x, step);
    SnapOnGrid(c.y, step);
    SnapClose(c.x, step);
    SnapClose(c.y, step);
    Coords(Snap(c.x, step), Snap(c.y, step))
  }

  lemma ScaleBack(v: real, step: real)
    requires step > 0.0
    ensures v / step * step == v
  {
  }

  lemma MulDiv(k: real, step: real)
    requires step > 0.0
    ensures k * step / step == k
  {
  }

  lemma SnapOnGrid(v: real, step: real)
    requires step > 0.0
    ensures OnGrid(Snap(v, step), step)
  {
    var r := Round(v / step);
    MulDiv(r as real, step);
    assert Snap(v, step) / step == r as real;
    assert (r as real).Floor == r;
  }

  lemma ScaleAbs(a: real, step: real)
    requires step > 0.0
    ensures Abs(a * step) == Abs(a) * step
  {
  }

  lemma ScaleLe(a: real, b: real, step: real)
    requires step > 0.0 && a <= b
    ensures a * step <= b * step
  {
  }

  /** The distance from `v` to `m` steps, measured in steps. */
  lemma DistanceScaled(v: real, step: real, m: real)
    requires step > 0.0
    ensures Abs(m * step - v) == Abs(m - v / step) * step
  {
    ScaleBack(v, step);
    assert m * step - v == (m - v / step) * step;
    ScaleAbs(m - v / step, step);
  }

  /** The distance from `v` to its snapped value, measured in steps. */
  lemma SnapDistance(v: real, step: real)
    requires step > 0.0
    ensures Abs(Snap(v, step) - v) == Abs(Round(v / step) as real - v / step) * step
  {
    DistanceScaled(v, step, Round(v / step) as real);
  }

  /** Two distances measured in steps compare as they do in units. */
  lemma ScaledLe(a: real, b: real, x: real, y: real, step: real)
    requires step > 0.0 && x <= y && a == x * step && b == y * step
    ensures a <= b
  {
    ScaleLe(x, y, step);
  }

  /** The snapped value is at most half a step away. */
  lemma SnapClose(v: real, step: real)
    requires step > 0.0
    ensures Abs(Snap(v, step) - v) <= step / 2.0
  {
    var near := Abs(Round(v / step) as real - v / step);
    SnapDistance(v, step);
    RoundClose(v / step);
    ScaledLe(Abs(Snap(v, step) - v), 0.5 * step, near, 0.5, step);
  }

  /** The snapped value is the nearest multiple of the step. */
  lemma SnapNearest(v: real, step: real, k: int)
    requires step > 0.0
    ensures Abs(Snap(v, step) - v) <= Abs(k as real * step - v)
  {
    var q := v / step;
    ScaleBack(v, step);
    assert q * step == v;
    NearestInSteps(q, step, k);
    assert Snap(v, step) == Round(q) as real * step;
  }

  /** For a point `q` steps along, the rounded step count is the nearest grid point. */
  lemma NearestInSteps(q: real, step: real, k: int)
    requires step > 0.0
    ensures Abs(Round(q) as real * step - q * step) <= Abs(k as real * step - q * step)
  {
    var d1, d2 := Round(q) as real - q, k as real - q;
    RoundNearest(q, k);
    assert Round(q) as real * step - q * step == d1 * step;
    assert k as real * step - q * step == d2 * step;
    ScaledAbsLe(d1, d2, step);
  }

  /** Scaling by a positive step keeps the order of two distances. */
  lemma ScaledAbsLe(d1: real, d2: real, step: real)
    requires step > 0.0 && Abs(d1) <= Abs(d2)
    ensures Abs(d1 * step) <= Abs(d2 * step)
  {
    ScaleAbs(d1, step);
    ScaleAbs(d2, step);
    ScaleLe(Abs(d1), Abs(d2), step);
  }

  /** A value on the grid snaps to itself. */
  lemma SnapOnGridFixed(v: real, step: real)
    requires step > 0.0 && OnGrid(v, step)
    ensures Snap(v, step) == v
  {
    var q := v / step;
    assert Round(q) == q.Floor;
    ScaleBack(v, step);
  }

  /** Snapping twice is snapping once. */
  lemma SnapIdempotent(v: real, step: real)
    requires step > 0.0
    ensures Snap(Snap(v, step), step) == Snap(v, step)
  {
    SnapOnGrid(v, step);
    SnapOnGridFixed(Snap(v, step), step);
  }

  /** Whole-number coordinates do not move when the step is one unit. */
  lemma SnapWholeToOne(k: int)
    ensures Snap(k as real, 1.0) == k as real
  {
    assert k as real / 1.0 == k as real;
    RoundHalfUp(k);
  }

  /** A point snapped to five grid squares is already on the one-square grid. */
  lemma FiveSquaresOnOneSquare(v: real)
    ensures OnGrid(Snap(v, 50.0), 10.0)
  {
    var r := Round(v / 50.0);
    assert Snap(v, 50.0) == r as real * 50.0;
    assert r as real * 50.0 / 10.0 == (r * 5) as real;
    assert ((r * 5) as real).Floor == r * 5;
  }

  /** `ceilToGrid`: a size plus two units of border, rounded up to a whole number of grid squares. */
  function CeilToGrid(v: real): (r: int)
    ensures r % GridSize == 0
    ensures v + 2.0 <= r as real < v + 2.0 + GridSize as real
  {
    var q := (v + 2.0) / GridSize as real;
    var c := -((-q).Floor);
    assert c as real - 1.0 < q <= c as real;
    c * GridSize
  }

  /** A CSS size: `auto`, or a whole number of pixels. */
  datatype CssSize = Auto | Px(px: int)

  /** `snapSize`: automatic when size snapping is off or nothing was measured, else rounded up to the grid. */
  function SnapSize(snapToGrid: bool, size: real): (r: CssSize)
    ensures r.Auto? <==> !snapToGrid || size == 0.0
    ensures r.Px? ==> r.px % GridSize == 0 && size + 2.0 <= r.px as real < size + 12.0
  {
    if !snapToGrid || size == 0.0 then Auto else Px(CeilToGrid(size))
  }

  /** A size already on the grid, less its border, snaps back to itself. */
  lemma CeilToGridStable(k: int)
    ensures CeilToGrid((k * GridSize) as real - 2.0) == k * GridSize
  {
  }

  function Clamp(v: real, lo: real, hi: real): real
    requires lo <= hi
  {
    if v < lo then lo else if v > hi then hi else v
  }

  /** The zoom a wheel or drag step asks for: at most 15% either way, then clamped to the zoom range. */
  function ZoomStep(zoom: real, delta: real): (r: real)
    ensures ZoomMin <= r <= ZoomMax
    ensures ZoomMin <= zoom <= ZoomMax && delta == 0.0 ==> r == zoom
  {
    Clamp(zoom * ZoomFactor(delta), ZoomMin, ZoomMax)
  }

  /** The factor a zoom step multiplies by, before clamping: within 15% of one. */
  function ZoomFactor(delta: real): (f: real)
    ensures 0.85 <= f <= 1.15
    ensures delta > 0.0 ==> f > 1.0
    ensures delta < 0.0 ==> f < 1.0
  {
    var magnitude := if Abs(delta) / 100.0 < 1.0 then Abs(delta) / 100.0 else 1.0;
    var normalized := if delta > 0.0 then magnitude else if delta < 0.0 then -magnitude else 0.0;
    1.0 + normalized * 0.15
  }

  /** `p` is at most `hi * zoom` when it is `zoom` scaled by a factor at most `hi`. */
  lemma ProductAtMost(zoom: real, f: real, hi: real, p: real)
    requires zoom > 0.0 && f <= hi && p == zoom * f
    ensures p <= hi * zoom
  {
    ScaleLe(f, hi, zoom);
  }

  /** `p` is at least `lo * zoom` when it is `zoom` scaled by a factor at least `lo`. */
  lemma ProductAtLeast(zoom: real, f: real, lo: real, p: real)
    requires zoom > 0.0 && lo <= f && p == zoom * f
    ensures lo * zoom <= p
  {
    ScaleLe(lo, f, zoom);
  }

  /** A zoom factor keeps a positive zoom within 15% of itself, on the factor's side of it. */
  lemma FactorBounds(zoom: real, f: real, p: real)
    requires zoom > 0.0 && 0.85 <= f <= 1.15 && p == zoom * f
    ensures 0.85 * zoom <= p <= 1.15 * zoom
    ensures f >= 1.0 ==> p >= zoom
    ensures f <= 1.0 ==> p <= zoom
  {
    ProductAtLeast(zoom, f, 0.85, p);
    ProductAtMost(zoom, f, 1.15, p);
    if f >= 1.0 { ProductAtLeast(zoom, f, 1.0, p); }
    if f <= 1.0 { ProductAtMost(zoom, f, 1.0, p); }
  }

  /** Clamping into a range that holds `z` moves a value towards `z`, never past it. */
  lemma ClampTowards(x: real, lo: real, hi: real, z: real)
    requires lo <= z <= hi
    ensures Abs(Clamp(x, lo, hi) - z) <= Abs(x - z)
    ensures x >= z ==> Clamp(x, lo, hi) >= z
    ensures x <= z ==> Clamp(x, lo, hi) <= z
  {
  }

  /** A zoom step changes the zoom by at most 15%, in the direction the step asks for. */
  lemma ZoomStepBounded(zoom: real, delta: real)
    requires ZoomMin <= zoom <= ZoomMax
    ensures Abs(ZoomStep(zoom, delta) - zoom) <= 0.15 * zoom
    ensures delta > 0.0 ==> ZoomStep(zoom, delta) >= zoom
    ensures delta < 0.0 ==> ZoomStep(zoom, delta) <= zoom
  {
    var f := ZoomFactor(delta);
    var p := zoom * f;
    assert ZoomStep(zoom, delta) == Clamp(p, ZoomMin, ZoomMax);
    FactorBounds(zoom, f, p);
    ClampTowards(p, ZoomMin, ZoomMax, zoom);
  }

  /** The new canvas offset after a zoom about a screen point: that point keeps showing the same world point. */
  function ZoomOffset(offset: real, oldZoom: real, newZoom: real, mouse: real): real
    requires oldZoom > 0.0
  {
    mouse - (mouse - offset) / oldZoom * newZoom
  }

  /** `handleZoom` keeps the world point under the mouse in place. */
  lemma ZoomKeepsPointUnderMouse(offset: real, oldZoom: real, newZoom: real, mouse: real)
    requires oldZoom > 0.0 && newZoom > 0.0
    ensures (mouse - ZoomOffset(offset, oldZoom, newZoom, mouse)) / newZoom == (mouse - offset) / oldZoom
  {
    var w := (mouse - offset) / oldZoom;
    assert mouse - ZoomOffset(offset, oldZoom, newZoom, mouse) == w * newZoom;
    MulDiv(w, newZoom);
  }

  /** A node dragged from `start`: the mouse's movement scaled by the zoom, then snapped. */
  function DragNode(start: Coords, startPos: Coords, pos: Coords, zoom: real, step: real): (r: Coords)
    requires zoom > 0.0 && step > 0.0
    ensures OnGrid(r.x, step) && OnGrid(r.y, step)
  {
    CoordsSnapToGrid(Coords(start.x + (pos.x - startPos.x) / zoom, start.y + (pos.y - startPos.y) / zoom), step)
  }

  /** A press without movement leaves a node on the grid where it was. */
  lemma DragNodeStill(start: Coords, startPos: Coords, zoom: real, step: real)
    requires zoom > 0.0 && step > 0.0 && OnGrid(start.x, step) && OnGrid(start.y, step)
    ensures DragNode(start, startPos, startPos, zoom, step) == start
  {
    SnapOnGridFixed(start.x, step);
    SnapOnGridFixed(start.y, step);
  }

  /** A panned canvas: the offset converted to world units, snapped there, and converted back. */
  function PanCanvas(start: Coords, startPos: Coords, pos: Coords, zoom: real, step: real): (r: Coords)
    requires zoom > 0.0 && step > 0.0
    ensures OnGrid(r.x / zoom, step) && OnGrid(r.y / zoom, step)
  {
    var world := Coords((start.x + (pos.x - startPos.x)) / zoom, (start.y + (pos.y - startPos.y)) / zoom);
    Unzoom(CoordsSnapToGrid(world, step), zoom, step)
  }

  /** World coordinates on the grid converted back to screen units by the zoom. */
  function Unzoom(c: Coords, zoom: real, step: real): (r: Coords)
    requires zoom > 0.0 && step > 0.0 && OnGrid(c.x, step) && OnGrid(c.y, step)
    ensures OnGrid(r.x / zoom, step) && OnGrid(r.y / zoom, step)
  {
    var x := c.x * zoom;
    var y := c.y * zoom;
    ScaledOnGrid(c.x, x, zoom, step);
    ScaledOnGrid(c.y, y, zoom, step);
    Coords(x, y)
  }

  /** A grid value scaled up by the zoom is back on the grid once scaled down. */
  lemma ScaledOnGrid(v: real, scaled: real, zoom: real, step: real)
    requires zoom > 0.0 && step > 0.0 && OnGrid(v, step) && scaled == v * zoom
    ensures OnGrid(scaled / zoom, step)
  {
    MulDiv(v, zoom);
  }
}
