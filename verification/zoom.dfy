/** Scaling of the desktop panel's content (js/desktop-panel.js): the auto-fit
    rule of `autoFitContent` and the zoom factor kept by `addZoomControls`.
    Numbers follow JavaScript's arithmetic on exact values: a division by zero
    gives an infinity or NaN, and `Math.min` is NaN as soon as one argument is.
    Floating-point rounding is not modelled. */
module Zoom {
  import opened Wrappers

  datatype JsNum = Finite(v: real) | PosInf | NegInf | NaN

  /** `a / b` on the numbers `getBoundingClientRect` returns. */
  function Div(a: real, b: real): (r: JsNum)
    ensures b != 0.0 ==> r == Finite(a / b)
    ensures b == 0.0 ==> (r == NaN <==> a == 0.0)
    ensures r != NegInf ==> a >= 0.0 || b != 0.0
  {
    if b != 0.0 then Finite(a / b)
    else if a > 0.0 then PosInf
    else if a < 0.0 then NegInf
    else NaN
  }

  /** `Math.min(x, y)`. */
  function Min(x: JsNum, y: JsNum): (r: JsNum)
    ensures r == NaN <==> x == NaN || y == NaN
    ensures r != NaN ==> r == x || r == y
  {
    match (x, y)
    case (NaN, _) => NaN
    case (_, NaN) => NaN
    case (NegInf, _) => NegInf
    case (_, NegInf) => NegInf
    case (PosInf, _) => y
    case (_, PosInf) => x
    case (Finite(a), Finite(b)) => if a <= b then x else y
  }

  /** `x * f` for a finite factor `f`. */
  function Mul(x: JsNum, f: real): JsNum {
    match x
    case Finite(a) => Finite(a * f)
    case NaN => NaN
    case PosInf => if f > 0.0 then PosInf else if f < 0.0 then NegInf else NaN
    case NegInf => if f > 0.0 then NegInf else if f < 0.0 then PosInf else NaN
  }

  /** The measurements `autoFitContent` reads: the container's box and the
      content's box at scale 1. */
  datatype Box = Box(containerWidth: real, containerHeight: real, contentWidth: real, contentHeight: real)

  predicate NonNegative(b: Box) {
    b.containerWidth >= 0.0 && b.containerHeight >= 0.0
    && b.contentWidth >= 0.0 && b.contentHeight >= 0.0
  }

  /** `Math.min(scaleX, scaleY, 1)`. */
  function FitScale(b: Box): (r: JsNum)
    ensures b.contentWidth > 0.0 && b.contentHeight > 0.0 ==>
              r.Finite? && r.v <= 1.0 && r.v <= b.containerWidth / b.contentWidth
              && r.v <= b.containerHeight / b.contentHeight
              && (r.v == 1.0 || r.v == b.containerWidth / b.contentWidth
                  || r.v == b.containerHeight / b.contentHeight)
    ensures r != PosInf
    ensures r.Finite? ==> r.v <= 1.0
    ensures r == NaN <==> (b.containerWidth == 0.0 && b.contentWidth == 0.0)
                          || (b.containerHeight == 0.0 && b.contentHeight == 0.0)
    ensures NonNegative(b) && r != NaN ==> r.Finite? && r.v >= 0.0
  {
    Min(Min(Div(b.containerWidth, b.contentWidth), Div(b.containerHeight, b.contentHeight)), Finite(1.0))
  }

  /** The zoom state: `factor` is the `currentScale` closure variable of
      `addZoomControls`, `baseline` the `data-original-scale` attribute (absent
      until the first auto-fit), `shown` the scale the code last assigned to
      the content's transform. A `scale(NaN)` assignment is invalid CSS, so the
      browser then keeps the content's previous transform; `shown` still
      records the assigned NaN. */
  datatype ZoomState = ZoomState(factor: real, baseline: Option<JsNum>, shown: JsNum)

  const Step: real := 0.1
  const MinFactor: real := 0.1

  /** Before any zoom or fit: factor 1, no stored baseline, unscaled content. */
  const Initial: ZoomState := ZoomState(1.0, None, Finite(1.0))

  /** Every reachable zoom state keeps its factor at or above the floor. */
  predicate Good(z: ZoomState) {
    z.factor >= MinFactor
  }

  /** `parseFloat(getAttribute('data-original-scale') || '1')`. */
  function Baseline(z: ZoomState): JsNum {
    z.baseline.GetOr(Finite(1.0))
  }

  /** `autoFitContent`: assigns and stores the fitted scale; the factor is kept. */
  function Fit(z: ZoomState, b: Box): (r: ZoomState)
    ensures r.baseline == Some(FitScale(b)) && r.shown == FitScale(b)
    ensures r.factor == z.factor
  {
    z.(baseline := Some(FitScale(b)), shown := FitScale(b))
  }

  /** `applyZoom`: assigns baseline times factor. */
  function Apply(z: ZoomState, factor: real): ZoomState {
    z.(factor := factor, shown := Mul(Baseline(z), factor))
  }

  /** The zoom-in button, or a ctrl-wheel turn upwards. */
  function ZoomIn(z: ZoomState): (r: ZoomState)
    ensures r.factor == z.factor + Step
    ensures r.baseline == z.baseline && r.shown == Mul(Baseline(z), r.factor)
    ensures Good(z) ==> Good(r)
  {
    Apply(z, z.factor + Step)
  }

  /** The zoom-out button, or a ctrl-wheel turn downwards. */
  function ZoomOut(z: ZoomState): (r: ZoomState)
    ensures r.factor >= MinFactor
    ensures r.factor == z.factor - Step || r.factor == MinFactor
    ensures z.factor - Step >= MinFactor ==> r.factor == z.factor - Step
    ensures r.factor <= z.factor || z.factor < MinFactor
    ensures r.baseline == z.baseline && r.shown == Mul(Baseline(z), r.factor)
  {
    Apply(z, if MinFactor >= z.factor - Step then MinFactor else z.factor - Step)
  }

  /** The reset button: factor back to 1 and a fresh auto-fit. */
  function Reset(z: ZoomState, b: Box): (r: ZoomState)
    ensures r.factor == 1.0 && Good(r)
    ensures r.shown == FitScale(b) && r.baseline == Some(FitScale(b))
  {
    Fit(z.(factor := 1.0), b)
  }

  /** A wheel event over the content: only with the ctrl key held, upwards
      (negative `deltaY`) zooms in and anything else zooms out. */
  function Wheel(z: ZoomState, ctrl: bool, deltaY: real): (r: ZoomState)
    ensures !ctrl ==> r == z
    ensures ctrl && deltaY < 0.0 ==> r == ZoomIn(z)
    ensures ctrl && deltaY >= 0.0 ==> r == ZoomOut(z)
  {
    if !ctrl then z else if deltaY < 0.0 then ZoomIn(z) else ZoomOut(z)
  }

  /** Zooming out undoes a zoom-in, from any reachable state. */
  lemma ZoomOutUndoesZoomIn(z: ZoomState)
    requires Good(z)
    ensures ZoomOut(ZoomIn(z)).factor == z.factor
    ensures ZoomOut(ZoomIn(z)).shown == Mul(Baseline(z), z.factor)
  {
  }

  /** Zooming in undoes a zoom-out unless the floor clipped it. */
  lemma ZoomInUndoesZoomOut(z: ZoomState)
    requires z.factor >= MinFactor + Step
    ensures ZoomIn(ZoomOut(z)).factor == z.factor
  {
  }

  /** Three zoom-ins from baseline 0.6 assign 0.6 × 1.3 = 0.78. */
  lemma ThreeZoomIns(z: ZoomState)
    requires z.factor == 1.0 && z.baseline == Some(Finite(0.6))
    ensures ZoomIn(ZoomIn(ZoomIn(z))).shown == Finite(0.78)
  {
  }

  /** The factor never drops below the floor, whatever sequence of zoom
      buttons, ctrl-wheel turns and resets is applied. */
  lemma {:induction false} FactorStaysAboveFloor(z: ZoomState, ops: seq<ZoomOp>, b: Box)
    requires Good(z)
    ensures Good(Run(z, ops, b))
    decreases |ops|
  {
    if |ops| > 0 {
      FactorStaysAboveFloor(Step1(z, ops[0], b), ops[1..], b);
    }
  }

  datatype ZoomOp = In | Out | ResetOp | CtrlWheel(deltaY: real)

  function Step1(z: ZoomState, op: ZoomOp, b: Box): ZoomState {
    match op
    case In => ZoomIn(z)
    case Out => ZoomOut(z)
    case ResetOp => Reset(z, b)
    case CtrlWheel(d) => Wheel(z, true, d)
  }

  function Run(z: ZoomState, ops: seq<ZoomOp>, b: Box): ZoomState
    decreases |ops|
  {
    if |ops| == 0 then z else Run(Step1(z, ops[0], b), ops[1..], b)
  }

  /** The shown scale is the baseline times the factor after every zoom button. */
  lemma ShownIsBaselineTimesFactor(z: ZoomState, op: ZoomOp, b: Box)
    requires op != ResetOp
    ensures Step1(z, op, b).shown == Mul(Baseline(z), Step1(z, op, b).factor)
  {
  }

  /** A fitted content box never scales above its natural size and never
      yields an infinite scale; with both boxes laid out (non-zero content
      size) the scale is the smaller of the two ratios, capped at 1. */
  lemma FitNeverUpscales(b: Box)
    requires NonNegative(b)
    ensures FitScale(b).Finite? || FitScale(b) == NaN
    ensures FitScale(b).Finite? ==> 0.0 <= FitScale(b).v <= 1.0
  {
  }

  /** A content box not yet laid out (zero width and height) inside a
      zero-size container gives NaN: the source divides by zero instead of
      skipping the fit. */
  lemma ZeroBoxGivesNaN(b: Box)
    requires b.contentWidth == 0.0 && b.contentHeight == 0.0 && b.containerWidth == 0.0
    ensures FitScale(b) == NaN
  {
  }
}
