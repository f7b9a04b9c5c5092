/** The desktop accordion navigation of js/desktop-nav.js: the item click
    highlight, `updateActiveMenuItem`, which highlights the items that target
    the section in view and opens their accordion sections, and the start-up
    rule that opens the first accordion section when none is open. Section
    geometry is passed in. */
module DesktopNav {
  import opened Wrappers
  import opened Accordion

  /** A `.snap-section`: its element id and its top and bottom in the viewport. */
  datatype PageSection = PageSection(id: string, top: real, bottom: real)

  /** The line 100 px below the viewport's top that marks the section in view. */
  const Line: real := 100.0

  /** A section is in view when it straddles the line. */
  predicate InView(sec: PageSection) {
    sec.top <= Line && sec.bottom >= Line
  }

  /** Item `i` targets section `s`, which is in view. */
  predicate Match(m: Menu, secs: seq<PageSection>, s: int, i: int) {
    0 <= s < |secs| && 0 <= i < |m.items|
    && InView(secs[s]) && m.items[i].target == "#" + secs[s].id
  }

  /** The pair `(s, i)` is visited before `(s0, i0)`: sections in document
      order, and within a section the items in document order. */
  predicate Before(s: int, i: int, s0: int, i0: int) {
    s < s0 || (s == s0 && i < i0)
  }

  /** `(s, i)` is the last match in visiting order. */
  ghost predicate LastMatch(m: Menu, secs: seq<PageSection>, s: int, i: int) {
    Match(m, secs, s, i)
    && forall s2, i2 :: Match(m, secs, s2, i2) ==> Before(s2, i2, s, i) || (s2 == s && i2 == i)
  }

  /** A click on item `i`: with a `data-target` the item becomes the only
      active one; without one nothing changes. */
  function ItemClick(m: Menu, h: Highlight, i: nat): (r: Highlight)
    requires i < |m.items|
    ensures m.items[i].target == "" ==> r == h
    ensures m.items[i].target != "" ==> r.active == {i} && r.checked == h.checked
  {
    if m.items[i].target == "" then h else Activate(h, i)
  }

  /** The panel's click handler and this one run on the same click; in either
      order the result is the panel's: only the item active and its section's
      radio checked. */
  lemma BothClickHandlersAgree(m: Menu, h: Highlight, i: nat)
    requires i < |m.items| && m.items[i].target != ""
    ensures CheckOwner(m, Activate(ItemClick(m, h, i), i), i) == CheckOwner(m, Activate(h, i), i)
    ensures ItemClick(m, CheckOwner(m, Activate(h, i), i), i) == CheckOwner(m, Activate(h, i), i)
  {
  }

  /** `updateActiveMenuItem`: for each section in view, each item targeting it
      in turn becomes the only active item and checks its section's radio.
      Returns whether any item matched. */
  method UpdateActiveMenuItem(m: Menu, secs: seq<PageSection>, h: Highlight)
    returns (found: bool, r: Highlight)
    ensures found <==> exists s, i :: Match(m, secs, s, i)
    ensures !found ==> r == h
    ensures found ==> exists s, i :: LastMatch(m, secs, s, i) && r.active == {i}
    ensures forall k :: k in r.checked <==>
              k in h.checked || exists s, i :: Match(m, secs, s, i) && RadioOf(m, i) == Some(k)
  {
    found := false;
    r := h;
    var lastS, lastI := -1, -1;
    var s := 0;
    while s < |secs|
      invariant 0 <= s <= |secs|
      invariant found <==> exists s2, i2 :: Match(m, secs, s2, i2) && s2 < s
      invariant !found ==> r == h
      invariant found ==> Match(m, secs, lastS, lastI) && lastS < s && r.active == {lastI}
      invariant forall s2, i2 :: Match(m, secs, s2, i2) && s2 < s ==>
                  Before(s2, i2, lastS, lastI) || (s2 == lastS && i2 == lastI)
      invariant forall k :: k in r.checked <==>
                  k in h.checked || exists s2, i2 :: Match(m, secs, s2, i2) && s2 < s && RadioOf(m, i2) == Some(k)
    {
      if InView(secs[s]) {
        var i := 0;
        while i < |m.items|
          invariant 0 <= i <= |m.items|
          invariant found <==> exists s2, i2 :: Match(m, secs, s2, i2) && Before(s2, i2, s, i)
          invariant !found ==> r == h
          invariant found ==> Match(m, secs, lastS, lastI) && Before(lastS, lastI, s, i) && r.active == {lastI}
          invariant forall s2, i2 :: Match(m, secs, s2, i2) && Before(s2, i2, s, i) ==>
                      Before(s2, i2, lastS, lastI) || (s2 == lastS && i2 == lastI)
          invariant forall k :: k in r.checked <==>
                      k in h.checked
                      || exists s2, i2 :: Match(m, secs, s2, i2) && Before(s2, i2, s, i) && RadioOf(m, i2) == Some(k)
        {
          if m.items[i].target == "#" + secs[s].id {
            assert Match(m, secs, s, i);
            r := CheckOwner(m, Activate(r, i), i);
            lastS, lastI := s, i;
            found := true;
          }
          i := i + 1;
        }
      } else {
        assert forall i2 :: !Match(m, secs, s, i2);
      }
      s := s + 1;
    }
    if found {
      assert LastMatch(m, secs, lastS, lastI);
    }
  }

  /** No radio is checked: the first radio in the menu gets checked, if any. */
  function DefaultRadio(m: Menu, h: Highlight): (r: Highlight)
    ensures h.checked != {} ==> r == h
    ensures h.checked == {} && FirstRadio(m).Some? ==> r == h.(checked := {FirstRadio(m).value})
    ensures FirstRadio(m).None? ==> r == h
  {
    if h.checked == {} then
      match FirstRadio(m)
      case Some(k) => h.(checked := {k})
      case None => h
    else h
  }

  /** The script's start on a window at least 768 px wide: one update, then
      the default radio. Narrower windows get no behaviour at all. */
  method Start(m: Menu, secs: seq<PageSection>, h: Highlight, width: int) returns (r: Highlight)
    ensures width < 768 ==> r == h
    ensures width >= 768 && Valid(m, h) && (exists k :: 0 <= k < |m.hasRadio| && IsRadio(m, k)) ==>
              r.checked != {}
    ensures width >= 768 && Valid(m, h) ==> Valid(m, r)
  {
    if width < 768 {
      return h;
    }
    var found, updated := UpdateActiveMenuItem(m, secs, h);
    if Valid(m, h) {
      forall k | k in updated.checked && k !in h.checked ensures IsRadio(m, k) {
        var s, i :| Match(m, secs, s, i) && RadioOf(m, i) == Some(k);
      }
      if found {
        ghost var s, i :| LastMatch(m, secs, s, i) && updated.active == {i};
      }
    }
    r := DefaultRadio(m, updated);
  }
}
