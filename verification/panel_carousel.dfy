/** The product carousel started inside the desktop panel by
    `initPanelProductCarousel` and `addCarouselControls` (js/desktop-panel.js):
    the figures' angles and transforms, the figure click that selects one
    figure and pauses the rotation, and the rotate button that toggles the
    pause. */
module PanelCarousel {
  import Ring

  /** The figures' angles and transforms, the figures with the `active` class,
      whether the carousel has the `paused` class, whether the rotation
      animation was set, and whether the rotate button shows its play icon. */
  datatype Carousel = Carousel(
    angles: seq<real>,
    transforms: seq<string>,
    active: set<nat>,
    paused: bool,
    animated: bool,
    buttonShowsPlay: bool)

  /** The radius every figure is pushed out by. */
  const Radius: string := "250px"

  /** The transform given to a figure at `angle`. */
  function FigureTransform(fmt: real -> string, angle: real): string {
    "rotateY(" + fmt(angle) + "deg) translateZ(" + Radius + ")"
  }

  /** Set-up for a carousel of `n` figures. Without figures it returns before
      the animation and the controls are added. */
  function Init(n: nat, fmt: real -> string): (r: Carousel)
    ensures |r.angles| == n && |r.transforms| == n
    ensures r.animated <==> n > 0
    ensures r.active == {} && !r.paused && !r.buttonShowsPlay
    ensures forall i :: 0 <= i < n ==>
              r.angles[i] == Ring.Angle(i, n) && r.transforms[i] == FigureTransform(fmt, r.angles[i])
  {
    if n == 0 then Carousel([], [], {}, false, false, false)
    else
      var angles := Ring.Angles(n);
      Carousel(angles, seq(n, i requires 0 <= i < n => FigureTransform(fmt, angles[i])),
               {}, false, true, false)
  }

  /** A click on figure `i`: every figure loses `active`; an inactive figure
      then gains it and pauses the carousel, an active one resumes it. The
      rotate button's icon is not updated. */
  function FigureClick(c: Carousel, i: nat): (r: Carousel)
    ensures i !in c.active ==> r.active == {i} && r.paused
    ensures i in c.active ==> r.active == {} && !r.paused
    ensures r.angles == c.angles && r.transforms == c.transforms
    ensures r.buttonShowsPlay == c.buttonShowsPlay && r.animated == c.animated
  {
    if i in c.active then c.(active := {}, paused := false)
    else c.(active := {i}, paused := true)
  }

  /** The rotate button: toggles `paused` and shows the play icon exactly when
      it paused the carousel. */
  function RotateButton(c: Carousel): (r: Carousel)
    ensures r.paused == !c.paused
    ensures r.buttonShowsPlay == r.paused
    ensures r.active == c.active && r.angles == c.angles && r.transforms == c.transforms
  {
    if c.paused then c.(paused := false, buttonShowsPlay := false)
    else c.(paused := true, buttonShowsPlay := true)
  }

  /** At most one figure is active at a time. */
  predicate AtMostOneActive(c: Carousel) {
    forall i, j :: i in c.active && j in c.active ==> i == j
  }

  /** Figure clicks and the rotate button keep at most one figure active. */
  lemma OneActivePreserved(c: Carousel, i: nat)
    requires AtMostOneActive(c)
    ensures AtMostOneActive(FigureClick(c, i))
    ensures AtMostOneActive(RotateButton(c))
  {
  }

  /** Clicking the same figure twice resumes the rotation and leaves no
      figure active; the second click on any figure after the first pauses
      or resumes depending only on whether it is the same figure. */
  lemma ClickTwiceResumes(c: Carousel, i: nat, j: nat)
    ensures FigureClick(FigureClick(c, i), i).active == {} || i in c.active
    ensures i !in c.active ==> !FigureClick(FigureClick(c, i), i).paused
    ensures i !in c.active && j != i ==> FigureClick(FigureClick(c, i), j).active == {j}
                                         && FigureClick(FigureClick(c, i), j).paused
  {
  }

  /** The rotate button's icon can disagree with the carousel: after a figure
      click pauses a running carousel, the button still offers to pause it. */
  lemma IconCanDisagree(n: nat, fmt: real -> string)
    requires n > 0
    ensures var c := FigureClick(Init(n, fmt), 0);
            c.paused && !c.buttonShowsPlay
  {
  }
}
