/** Section-by-section navigation of the snap container in js/main.js: the
    wheel and touch handlers of `setupScrolling`, which move one section up or
    down under a scroll lock, and the dot navigation, which marks one dot
    active, follows the scroll position and answers the arrow and page keys.
    Section geometry (`getBoundingClientRect`) is passed in; the 1000 ms
    cooldown is the lock together with an explicit `Unlock` step. */
module SnapNav {
  import opened Wrappers

  /** The first index whose value satisfies `p`, searching from `from`. */
  function FirstFrom(s: seq<real>, p: real -> bool, from: nat): (r: Option<nat>)
    requires from <= |s|
    requires forall k :: 0 <= k < from ==> !p(s[k])
    ensures r.Some? ==> r.value < |s| && p(s[r.value]) && forall k :: 0 <= k < r.value ==> !p(s[k])
    ensures r.None? ==> forall k :: 0 <= k < |s| ==> !p(s[k])
    decreases |s| - from
  {
    if from == |s| then None
    else if p(s[from]) then Some(from)
    else FirstFrom(s, p, from + 1)
  }

  /** A section counts as the current one when its top is within 100 px of
      the viewport's top. */
  predicate NearTop(top: real) {
    -100.0 <= top <= 100.0
  }

  /** `sections.find(...)` and `indexOf`: the first section near the top. */
  function CurrentSection(tops: seq<real>): (r: Option<nat>)
    ensures r.Some? ==> r.value < |tops| && NearTop(tops[r.value])
    ensures r.Some? ==> forall k :: 0 <= k < r.value ==> !NearTop(tops[k])
    ensures r.None? <==> forall k :: 0 <= k < |tops| ==> !NearTop(tops[k])
  {
    FirstFrom(tops, NearTop, 0)
  }

  /** The index one step from `current`, if it is a section. */
  function Neighbour(current: nat, down: bool, count: nat): (r: Option<nat>)
    ensures r.Some? ==> r.value < count
    ensures down ==> (r.Some? <==> current + 1 < count) && (r.Some? ==> r.value == current + 1)
    ensures !down ==> (r.Some? <==> 0 < current < count + 1) && (r.Some? ==> r.value + 1 == current)
  {
    var target := if down then current + 1 else current - 1;
    if 0 <= target < count then Some(target as nat) else None
  }

  /** What a wheel or touch move does: the new lock, the section scrolled to
      (if any), and whether the browser's own scrolling was prevented. */
  datatype Move = Move(locked: bool, scrollTo: Option<nat>, prevented: bool)

  /** The wheel handler. While locked the event is swallowed. Otherwise, when
      a section is near the top, the default is prevented and a positive
      `deltaY` scrolls to the next section, anything else to the previous
      one, locking further moves, provided that section exists. */
  function Wheel(locked: bool, tops: seq<real>, deltaY: real): (r: Move)
    ensures locked ==> r == Move(true, None, true)
    ensures !locked && CurrentSection(tops).None? ==> r == Move(false, None, false)
    ensures !locked && CurrentSection(tops).Some? ==>
              r.prevented
              && r.scrollTo == Neighbour(CurrentSection(tops).value, deltaY > 0.0, |tops|)
              && (r.locked <==> r.scrollTo.Some?)
  {
    if locked then Move(true, None, true)
    else match CurrentSection(tops)
      case None => Move(false, None, false)
      case Some(c) =>
        var target := Neighbour(c, deltaY > 0.0, |tops|);
        Move(target.Some?, target, true)
  }

  /** The touch state: the scroll lock shared with the wheel handler, and the
      `touchStartY` recorded at `touchstart` or after a move. */
  datatype Touch = Touch(locked: bool, startY: real)

  /** `touchstart`. */
  function TouchStart(t: Touch, y: real): (r: Touch)
    ensures r.startY == y && r.locked == t.locked
  {
    t.(startY := y)
  }

  /** The distance a finger must travel before a touch move counts. */
  const TouchThreshold: real := 50.0

  function Abs(x: real): real {
    if x < 0.0 then -x else x
  }

  /** The `touchmove` handler. While locked the event is swallowed. Otherwise
      a move of more than 50 px while a section is near the top prevents the
      default, scrolls towards the finger's travel when that section exists
      (locking further moves) and restarts the measurement at `y`. */
  function TouchMove(t: Touch, tops: seq<real>, y: real): (r: (Touch, Move))
    ensures t.locked ==> r == (t, Move(true, None, true))
    ensures !t.locked && (CurrentSection(tops).None? || Abs(t.startY - y) <= TouchThreshold) ==>
              r == (t, Move(false, None, false))
    ensures !t.locked && CurrentSection(tops).Some? && Abs(t.startY - y) > TouchThreshold ==>
              r.1.prevented && r.0.startY == y
              && r.1.scrollTo == Neighbour(CurrentSection(tops).value, t.startY - y > 0.0, |tops|)
              && (r.0.locked <==> r.1.scrollTo.Some?) && r.1.locked == r.0.locked
  {
    if t.locked then (t, Move(true, None, true))
    else
      var diff := t.startY - y;
      match CurrentSection(tops)
      case None => (t, Move(false, None, false))
      case Some(c) =>
        if Abs(diff) > TouchThreshold then
          var target := Neighbour(c, diff > 0.0, |tops|);
          (Touch(target.Some?, y), Move(target.Some?, target, true))
        else (t, Move(false, None, false))
  }

  /** The cooldown timer releasing the lock. */
  function Unlock(t: Touch): (r: Touch)
    ensures !r.locked && r.startY == t.startY
  {
    t.(locked := false)
  }

  /** A wheel or touch move only ever scrolls to a section adjacent to the
      current one, and a scroll always sets the lock, so a second move before
      the cooldown scrolls nowhere. */
  lemma MovesStepByOne(locked: bool, tops: seq<real>, deltaY: real, deltaY2: real)
    ensures var r := Wheel(locked, tops, deltaY);
            r.scrollTo.Some? ==>
              r.locked && CurrentSection(tops).Some? && r.scrollTo.value < |tops|
              && (r.scrollTo.value == CurrentSection(tops).value + 1
                  || r.scrollTo.value + 1 == CurrentSection(tops).value)
              && Wheel(r.locked, tops, deltaY2).scrollTo.None?
  {
  }

  /** At the last section a downward wheel turn and at the first section an
      upward one are swallowed without scrolling or locking. */
  lemma EdgesStay(tops: seq<real>, deltaY: real)
    requires CurrentSection(tops).Some?
    requires deltaY > 0.0 ==> CurrentSection(tops).value == |tops| - 1
    requires deltaY <= 0.0 ==> CurrentSection(tops).value == 0
    ensures Wheel(false, tops, deltaY) == Move(false, None, true)
  {
  }

  /** A swipe up of more than 50 px from inside a middle section scrolls to
      the next one and then holds off further touch moves until unlocked. */
  lemma SwipeUpThenLocked(t: Touch, tops: seq<real>, y: real, y2: real)
    requires !t.locked && CurrentSection(tops).Some?
    requires CurrentSection(tops).value + 1 < |tops|
    requires t.startY - y > TouchThreshold
    ensures var (t1, m) := TouchMove(t, tops, y);
            m.scrollTo == Some(CurrentSection(tops).value + 1) && t1.locked
            && TouchMove(t1, tops, y2).1.scrollTo.None?
            && !Unlock(t1).locked
  {
  }

  /** `setActiveDotByIndex(i)` over `n` dots: exactly dot `i` is active, and
      none when `i` is not a dot. */
  function SetActiveDot(n: nat, i: int): (r: seq<bool>)
    ensures |r| == n
    ensures forall k :: 0 <= k < n ==> (r[k] <==> k == i)
  {
    seq(n, k => k == i)
  }

  /** The active dot as `findIndex` sees it: the first active one, or -1. */
  function ActiveIndex(dots: seq<bool>): (r: int)
    ensures -1 <= r < |dots|
    ensures r >= 0 ==> dots[r] && forall k :: 0 <= k < r ==> !dots[k]
    ensures r == -1 <==> forall k :: 0 <= k < |dots| ==> !dots[k]
  {
    if |dots| == 0 then -1
    else if dots[0] then 0
    else
      var rest := ActiveIndex(dots[1..]);
      assert forall k :: 1 <= k < |dots| ==> dots[k] == dots[1..][k - 1];
      if rest == -1 then -1 else rest + 1
  }

  /** After `setActiveDotByIndex(i)` the keyboard handler sees dot `i` as active. */
  lemma {:induction false} ActiveIndexOfSet(n: nat, i: int)
    ensures 0 <= i < n ==> ActiveIndex(SetActiveDot(n, i)) == i
    ensures !(0 <= i < n) ==> ActiveIndex(SetActiveDot(n, i)) == -1
  {
    if 0 <= i < n {
      assert SetActiveDot(n, i)[i];
    }
  }

  /** A dot click on dot `i` whose `data-target` exists marks it active;
      otherwise nothing changes. */
  function DotClick(dots: seq<bool>, i: nat, targetExists: bool): (r: seq<bool>)
    ensures !targetExists ==> r == dots
    ensures targetExists ==> |r| == |dots| && forall k :: 0 <= k < |r| ==> (r[k] <==> k == i)
  {
    if targetExists then SetActiveDot(|dots|, i) else dots
  }

  /** A section's vertical extent in the viewport. */
  datatype Band = Band(top: real, bottom: real)

  /** The section's band straddles the line one third down the viewport. */
  predicate Straddles(b: Band, innerHeight: real) {
    b.top <= innerHeight / 3.0 && b.bottom >= innerHeight / 3.0
  }

  /** The first section whose band straddles the line. */
  function FirstStraddling(bands: seq<Band>, innerHeight: real, from: nat): (r: Option<nat>)
    requires from <= |bands|
    requires forall k :: 0 <= k < from ==> !Straddles(bands[k], innerHeight)
    ensures r.Some? ==> r.value < |bands| && Straddles(bands[r.value], innerHeight)
    ensures r.Some? ==> forall k :: 0 <= k < r.value ==> !Straddles(bands[k], innerHeight)
    ensures r.None? ==> forall k :: 0 <= k < |bands| ==> !Straddles(bands[k], innerHeight)
    decreases |bands| - from
  {
    if from == |bands| then None
    else if Straddles(bands[from], innerHeight) then Some(from)
    else FirstStraddling(bands, innerHeight, from + 1)
  }

  /** `updateDotNavOnScroll`: the dot of the first straddling section becomes
      the only active one; when no section straddles the line the dots are
      left as they were. */
  function UpdateDotNavOnScroll(dots: seq<bool>, bands: seq<Band>, innerHeight: real): (r: seq<bool>)
    ensures |r| == |dots|
    ensures (forall k :: 0 <= k < |bands| ==> !Straddles(bands[k], innerHeight)) ==> r == dots
    ensures forall i ::
              (0 <= i < |bands| && Straddles(bands[i], innerHeight)
               && (forall k :: 0 <= k < i ==> !Straddles(bands[k], innerHeight)))
              ==> forall k :: 0 <= k < |r| ==> (r[k] <==> k == i)
  {
    match FirstStraddling(bands, innerHeight, 0)
    case Some(i) => SetActiveDot(|dots|, i)
    case None => dots
  }

  /** The keys the handler answers. */
  datatype Key = ArrowDown | PageDown | ArrowUp | PageUp | OtherKey

  /** What a key press does: the section scrolled to (its dot gets the focus)
      and whether the default was prevented. */
  datatype KeyResult = KeyResult(scrollTo: Option<nat>, prevented: bool)

  /** The keydown handler with `sections` snap sections. Down keys move one
      section down when the active index is below the last section (with no
      active dot the index is -1, so they go to the first section); up keys
      move one section up when the active index is above 0. Both kinds of key
      prevent the default even when nothing moves. */
  function KeyDown(dots: seq<bool>, sections: nat, key: Key): (r: KeyResult)
    ensures key == OtherKey ==> r == KeyResult(None, false)
    ensures key != OtherKey ==> r.prevented
    ensures (key == ArrowDown || key == PageDown) ==>
              (r.scrollTo.Some? <==> ActiveIndex(dots) < sections - 1)
              && (r.scrollTo.Some? ==> r.scrollTo.value == ActiveIndex(dots) + 1)
    ensures (key == ArrowUp || key == PageUp) ==>
              (r.scrollTo.Some? <==> ActiveIndex(dots) > 0)
              && (r.scrollTo.Some? ==> r.scrollTo.value + 1 == ActiveIndex(dots))
  {
    var a := ActiveIndex(dots);
    match key
    case ArrowDown => KeyResult(if a < sections - 1 then Some(a + 1) else None, true)
    case PageDown => KeyResult(if a < sections - 1 then Some(a + 1) else None, true)
    case ArrowUp => KeyResult(if a > 0 then Some(a - 1) else None, true)
    case PageUp => KeyResult(if a > 0 then Some(a - 1) else None, true)
    case OtherKey => KeyResult(None, false)
  }

  /** With dot `i` of `n` active (one dot per section), the down keys scroll
      to section `i + 1` unless `i` is the last, and the up keys to `i - 1`
      unless `i` is the first: the keyboard never leaves the sections. */
  lemma KeysStayInRange(n: nat, i: nat, key: Key)
    requires i < n
    ensures var r := KeyDown(SetActiveDot(n, i), n, key);
            r.scrollTo.Some? ==>
              r.scrollTo.value < n && (r.scrollTo.value == i + 1 || r.scrollTo.value + 1 == i)
  {
    ActiveIndexOfSet(n, i);
  }

  /** With no active dot a down key goes to the first section, if there is one. */
  lemma NoActiveDotGoesToFirst(n: nat, sections: nat)
    requires sections > 0
    ensures KeyDown(SetActiveDot(n, -1), sections, ArrowDown).scrollTo == Some(0)
  {
    ActiveIndexOfSet(n, -1);
  }
}
