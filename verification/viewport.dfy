/**
  The viewport of a canvas: a zoom factor and a pan offset, with zoom kept
  within fixed limits by the zoom operations. Values are exact reals.
 */
module Viewport {

  datatype CanvasState = CanvasState(scale: real, offsetX: real, offsetY: real)

  const MinScale: real := 0.25
  const MaxScale: real := 4.0
  const DefaultScale: real := 1.0
  /** The factor `zoomIn`/`zoomOut` use when none is given. */
  const DefaultZoomFactor: real := 1.2

  function Min(a: real, b: real): real { if a <= b then a else b }
  function Max(a: real, b: real): real { if a >= b then a else b }

  predicate ScaleInRange(s: real) { MinScale <= s <= MaxScale }

  /** A fresh viewport: the requested scale, deliberately not clamped, and no pan. */
  function Init(initialScale: real := DefaultScale): (v: CanvasState)
    ensures v.scale == initialScale && v.offsetX == 0.0 && v.offsetY == 0.0
  {
    CanvasState(initialScale, 0.0, 0.0)
  }

  /** Multiply the scale by `factor`, capped at the maximum; the pan is kept. */
  function ZoomIn(v: CanvasState, factor: real := DefaultZoomFactor): (r: CanvasState)
    ensures r.scale <= MaxScale && r.scale <= v.scale * factor
    ensures r.scale == v.scale * factor || r.scale == MaxScale
    ensures r.offsetX == v.offsetX && r.offsetY == v.offsetY
  {
    v.(scale := Min(v.scale * factor, MaxScale))
  }

  /** Divide the scale by `factor`, floored at the minimum; the pan is kept. */
  function ZoomOut(v: CanvasState, factor: real := DefaultZoomFactor): (r: CanvasState)
    requires factor != 0.0
    ensures r.scale >= MinScale && r.scale >= v.scale / factor
    ensures r.scale == v.scale / factor || r.scale == MinScale
    ensures r.offsetX == v.offsetX && r.offsetY == v.offsetY
  {
    v.(scale := Max(v.scale / factor, MinScale))
  }

  /** Set the scale to `newScale` clamped into `[MinScale, MaxScale]`; the pan is kept. */
  function SetZoom(v: CanvasState, newScale: real): (r: CanvasState)
    ensures ScaleInRange(r.scale)
    ensures ScaleInRange(newScale) ==> r.scale == newScale
    ensures newScale < MinScale ==> r.scale == MinScale
    ensures newScale > MaxScale ==> r.scale == MaxScale
    ensures r.offsetX == v.offsetX && r.offsetY == v.offsetY
  {
    v.(scale := Max(MinScale, Min(newScale, MaxScale)))
  }

  /** Move the pan offset by `(dx, dy)`; the scale is kept. */
  function Pan(v: CanvasState, dx: real, dy: real): (r: CanvasState)
    ensures r.offsetX - v.offsetX == dx && r.offsetY - v.offsetY == dy
    ensures r.scale == v.scale
  {
    v.(offsetX := v.offsetX + dx, offsetY := v.offsetY + dy)
  }

  /** Place the pan offset at `(x, y)`; the scale is kept. */
  function SetPan(v: CanvasState, x: real, y: real): (r: CanvasState)
    ensures r.offsetX == x && r.offsetY == y && r.scale == v.scale
  {
    v.(offsetX := x, offsetY := y)
  }

  /** Back to the default scale with no pan. */
  function ResetView(v: CanvasState): (r: CanvasState)
    ensures r == Init()
  {
    CanvasState(DefaultScale, 0.0, 0.0)
  }

  /** Zooming in by a factor above one strictly enlarges a positive scale below the maximum. */
  lemma ZoomInGrows(v: CanvasState, factor: real)
    requires 0.0 < v.scale < MaxScale && factor > 1.0
    ensures ZoomIn(v, factor).scale > v.scale
  {
    assert v.scale * factor - v.scale == v.scale * (factor - 1.0);
    assert v.scale * (factor - 1.0) > 0.0;
    assert ZoomIn(v, factor).scale == Min(v.scale * factor, MaxScale);
  }

  lemma DivShrinks(a: real, f: real)
    requires a > 0.0 && f > 1.0
    ensures 0.0 < a / f < a
  {
    var q := a / f;
    assert q * f == a;
    assert a - q == q * (f - 1.0);
    assert q * (f - 1.0) > 0.0;
  }

  /** Zooming out by a factor above one strictly shrinks a scale above the minimum. */
  lemma ZoomOutShrinks(v: CanvasState, factor: real)
    requires v.scale > MinScale && factor > 1.0
    ensures ZoomOut(v, factor).scale < v.scale
  {
    DivShrinks(v.scale, factor);
  }

  /** Setting the zoom again to the value just set changes nothing, as does repeating the call. */
  lemma SetZoomIdempotent(v: CanvasState, s: real)
    ensures SetZoom(SetZoom(v, s), SetZoom(v, s).scale) == SetZoom(v, s)
    ensures SetZoom(SetZoom(v, s), s) == SetZoom(v, s)
  {
  }

  /** Panning back by the opposite amounts restores the viewport; two pans add up. */
  lemma PanInverse(v: CanvasState, dx: real, dy: real, ex: real, ey: real)
    ensures Pan(Pan(v, dx, dy), -dx, -dy) == v
    ensures Pan(Pan(v, dx, dy), ex, ey) == Pan(v, dx + ex, dy + ey)
  {
  }

  /** `SetPan` is absolute: what panning happened before does not matter. */
  lemma SetPanAbsolute(v: CanvasState, dx: real, dy: real, x: real, y: real)
    ensures SetPan(Pan(v, dx, dy), x, y) == SetPan(v, x, y)
  {
  }

  /** The zoom operations, as a sequence of user actions. */
  datatype ZoomOp = ZoomInBy(factor: real) | ZoomOutBy(factor: real) | ZoomTo(newScale: real)

  predicate ZoomOpDefined(op: ZoomOp) {
    op.ZoomOutBy? ==> op.factor != 0.0
  }

  function ApplyZoom(v: CanvasState, op: ZoomOp): (r: CanvasState)
    requires ZoomOpDefined(op)
    ensures r.offsetX == v.offsetX && r.offsetY == v.offsetY
  {
    match op
    case ZoomInBy(f) => ZoomIn(v, f)
    case ZoomOutBy(f) => ZoomOut(v, f)
    case ZoomTo(s) => SetZoom(v, s)
  }

  function ApplyZooms(v: CanvasState, ops: seq<ZoomOp>): (r: CanvasState)
    requires forall i :: 0 <= i < |ops| ==> ZoomOpDefined(ops[i])
    ensures r.offsetX == v.offsetX && r.offsetY == v.offsetY
    decreases |ops|
  {
    if |ops| == 0 then v else ApplyZooms(ApplyZoom(v, ops[0]), ops[1..])
  }

  /** One zoom step with a factor of at least one keeps an in-range scale in range. */
  lemma ZoomStepInRange(v: CanvasState, op: ZoomOp)
    requires ScaleInRange(v.scale)
    requires ZoomOpDefined(op) && (op.ZoomInBy? || op.ZoomOutBy? ==> op.factor >= 1.0)
    ensures ScaleInRange(ApplyZoom(v, op).scale)
  {
    match op
    case ZoomInBy(f) => MulNoShrink(v.scale, f);
    case ZoomOutBy(f) => DivNoGrow(v.scale, f);
    case ZoomTo(_) =>
  }

  lemma MulNoShrink(a: real, f: real)
    requires a >= 0.0 && f >= 1.0
    ensures a * f >= a
  {
    assert a * f - a == a * (f - 1.0);
    assert a * (f - 1.0) >= 0.0;
  }

  lemma DivNoGrow(a: real, f: real)
    requires a >= 0.0 && f >= 1.0
    ensures a / f <= a
  {
    var q := a / f;
    assert q * f == a;
    assert q >= 0.0;
    MulNoShrink(q, f);
  }

  /**
    Starting in range, any sequence of zoom-in, zoom-out and set-zoom actions
    whose factors are at least one keeps the scale in range.
   */
  lemma {:induction false} ZoomsStayInRange(v: CanvasState, ops: seq<ZoomOp>)
    requires ScaleInRange(v.scale)
    requires forall i :: 0 <= i < |ops| ==> ZoomOpDefined(ops[i])
    requires forall i :: 0 <= i < |ops| ==> (ops[i].ZoomInBy? || ops[i].ZoomOutBy? ==> ops[i].factor >= 1.0)
    ensures ScaleInRange(ApplyZooms(v, ops).scale)
    decreases |ops|
  {
    if |ops| > 0 {
      ZoomStepInRange(v, ops[0]);
      ZoomsStayInRange(ApplyZoom(v, ops[0]), ops[1..]);
    }
  }
}
