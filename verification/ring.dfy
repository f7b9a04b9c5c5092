/** The 3D product ring of js/3d-carousel.js: each figure's angle, the
    transform string it receives, the hover scale-up that restores the stored
    transform on leave, the re-application on window resize, and the one-shot
    refresh when the products section first becomes visible.
    JavaScript's number-to-string conversion inside template strings is a
    parameter `fmt` (it is not part of this model). */
module Ring {
  import opened Text

  /** `angleStep * index` with `angleStep = 360 / figures.length`. */
  function Angle(i: nat, n: nat): real
    requires n > 0
  {
    (360.0 / n as real) * i as real
  }

  /** The angles of a ring of `n` figures, in figure order. */
  function Angles(n: nat): (r: seq<real>)
    ensures |r| == n
    ensures forall i :: 0 <= i < n ==> r[i] == Angle(i, n)
  {
    seq(n, i requires 0 <= i < n => Angle(i, n))
  }

  /** A positive step times a smaller count is smaller. */
  lemma ScaleMonotone(step: real, a: nat, b: nat)
    requires step > 0.0 && a < b
    ensures step * a as real < step * b as real
  {
    var d := (b - a) as real;
    assert step * b as real == step * a as real + step * d;
    assert d >= 1.0;
    assert step * d >= step;
  }

  /** Angles grow with the index and stay below a full turn. */
  lemma AngleOrder(i: nat, j: nat, n: nat)
    requires i < j <= n
    ensures Angle(i, n) < 360.0 * j as real / n as real
    ensures 0.0 <= Angle(i, n)
    ensures j < n ==> Angle(i, n) < Angle(j, n)
  {
    var step := 360.0 / n as real;
    assert step > 0.0;
    ScaleMonotone(step, i, j);
    assert step * j as real == 360.0 * j as real / n as real;
  }

  /** Every figure's angle lies in [0, 360), and the angles strictly increase
      along the ring, starting at 0: no two figures share an angle. */
  lemma AnglesSpread(n: nat)
    ensures forall i :: 0 <= i < n ==> 0.0 <= Angles(n)[i] < 360.0
    ensures forall i, j :: 0 <= i < j < n ==> Angles(n)[i] < Angles(n)[j]
    ensures n > 0 ==> Angles(n)[0] == 0.0
  {
    forall i | 0 <= i < n ensures 0.0 <= Angles(n)[i] < 360.0 {
      AngleOrder(i, n, n);
      assert 360.0 * n as real / n as real == 360.0;
    }
    forall i, j | 0 <= i < j < n ensures Angles(n)[i] < Angles(n)[j] {
      AngleOrder(i, j, n);
    }
  }

  /** The distance used when the `--carousel-z-distance` custom property is
      empty after trimming. */
  const DefaultDistance: string := "350px"

  /** `getPropertyValue('--carousel-z-distance').trim() || '350px'`. */
  function Distance(cssValue: string): (r: string)
    ensures Trim(cssValue) == "" ==> r == DefaultDistance
    ensures Trim(cssValue) != "" ==> r == Trim(cssValue)
  {
    var t := Trim(cssValue);
    if t == "" then DefaultDistance else t
  }

  /** `applyTransform(element, angle, distance)`: the first `px` of the
      distance is removed and put back after the number. */
  function Transform(fmt: real -> string, angle: real, distance: string): string {
    "rotateY(" + fmt(angle) + "deg) translateZ(" + ReplaceFirst(distance, "px", "") + "px)"
  }

  /** The first `px` of the default distance ends its number. */
  lemma DefaultDistanceNumber(distance: string)
    requires distance == DefaultDistance
    ensures ReplaceFirst(distance, "px", "") == "350"
  {
    assert OccursAt(distance, "px", 3);
    forall j | 0 <= j < 3 ensures !OccursAt(distance, "px", j) {
      assert distance[j] != 'p';
    }
    ReplaceFirstSpec(distance, "px", "");
    assert distance[..3] + "" + distance[5..] == "350";
  }

  /** With the default distance the transform is `rotateY(<a>deg) translateZ(350px)`. */
  lemma DefaultTransform(fmt: real -> string, angle: real, distance: string)
    requires distance == DefaultDistance
    ensures Transform(fmt, angle, distance) == "rotateY(" + fmt(angle) + "deg) translateZ(350px)"
  {
    DefaultDistanceNumber(distance);
  }

  /** A distance without `px`, such as the bare number `350`, is used as it
      is, followed by `px`. */
  lemma TransformWithoutPx(fmt: real -> string, angle: real, distance: string)
    requires forall k :: 0 <= k <= |distance| ==> !OccursAt(distance, "px", k)
    ensures Transform(fmt, angle, distance) == "rotateY(" + fmt(angle) + "deg) translateZ(" + distance + "px)"
  {
    ReplaceFirstSpec(distance, "px", "");
  }

  /** A figure's stored angle (`dataset.angle`), its current inline transform,
      and the transform stored for hover restore (`dataset.originalTransform`). */
  datatype Figure = Figure(angle: real, transform: string, original: string)

  /** `initProductCarousel` for a ring of `n` figures. */
  function Init(n: nat, cssValue: string, fmt: real -> string): (r: seq<Figure>)
    ensures |r| == n
    ensures forall i :: 0 <= i < n ==> r[i].angle == Angle(i, n)
    ensures forall i :: 0 <= i < n ==>
              r[i].transform == Transform(fmt, Angle(i, n), Distance(cssValue))
              && r[i].original == r[i].transform
  {
    seq(n, i requires 0 <= i < n =>
      var t := Transform(fmt, Angle(i, n), Distance(cssValue));
      Figure(Angle(i, n), t, t))
  }

  /** `mouseenter`: the stored transform followed by ` scale(1.05)`. */
  function Enter(f: Figure): Figure {
    f.(transform := f.original + " scale(1.05)")
  }

  /** `mouseleave`: the stored transform, exactly. */
  function Leave(f: Figure): Figure {
    f.(transform := f.original)
  }

  /** Hovering never compounds: entering twice is entering once; leaving
      restores the stored transform whatever happened before, and after
      `Init` that is the transform the figure was given. */
  lemma HoverRestores(f: Figure)
    ensures Enter(Enter(f)) == Enter(f)
    ensures Leave(Enter(f)) == Leave(f)
    ensures Leave(f).transform == f.original
    ensures Enter(f).transform != f.original
    ensures f.transform == f.original ==> Leave(Enter(f)) == f
  {
    assert |Enter(f).transform| > |f.original|;
  }

  /** The window `resize` handler: each figure keeps its stored angle, gets the
      transform for the current distance, and that transform is stored for
      hover restore. */
  function Resize(figs: seq<Figure>, cssValue: string, fmt: real -> string): (r: seq<Figure>)
    ensures |r| == |figs|
    ensures forall i :: 0 <= i < |figs| ==>
              r[i].angle == figs[i].angle
              && r[i].transform == Transform(fmt, figs[i].angle, Distance(cssValue))
              && r[i].original == r[i].transform
  {
    seq(|figs|, i requires 0 <= i < |figs| =>
      var t := Transform(fmt, figs[i].angle, Distance(cssValue));
      Figure(figs[i].angle, t, t))
  }

  /** A resize with an unchanged distance reproduces the initial layout, and
      hover then restores the resized transform. */
  lemma ResizeKeepsLayout(n: nat, cssValue: string, fmt: real -> string)
    ensures Resize(Init(n, cssValue, fmt), cssValue, fmt) == Init(n, cssValue, fmt)
    ensures forall i :: 0 <= i < n ==>
              Leave(Enter(Resize(Init(n, cssValue, fmt), cssValue, fmt)[i])).transform
              == Init(n, cssValue, fmt)[i].transform
  {
  }

  /** The intersection observer: the first time the products section is seen
      the figures get the transform for the current distance and observation
      stops; the stored hover transform is not refreshed. */
  function Refresh(figs: seq<Figure>, observing: bool, intersecting: bool,
                   cssValue: string, fmt: real -> string): (r: (seq<Figure>, bool))
    ensures !(observing && intersecting) ==> r == (figs, observing)
    ensures observing && intersecting ==> !r.1 && |r.0| == |figs|
    ensures observing && intersecting ==> forall i :: 0 <= i < |figs| ==>
              r.0[i].angle == figs[i].angle && r.0[i].original == figs[i].original
              && r.0[i].transform == Transform(fmt, figs[i].angle, Distance(cssValue))
  {
    if observing && intersecting then
      (seq(|figs|, i requires 0 <= i < |figs| =>
         figs[i].(transform := Transform(fmt, figs[i].angle, Distance(cssValue)))), false)
    else (figs, observing)
  }

  /** The refresh happens at most once: a second one changes nothing. */
  lemma RefreshOnce(figs: seq<Figure>, observing: bool, intersecting: bool, again: bool,
                    cssValue: string, cssLater: string, fmt: real -> string)
    ensures var first := Refresh(figs, observing, intersecting, cssValue, fmt);
            first.1 || Refresh(first.0, first.1, again, cssLater, fmt) == first
  {
  }
}
