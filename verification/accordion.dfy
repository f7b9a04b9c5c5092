/** The desktop accordion menu that js/desktop-panel.js and js/desktop-nav.js
    both act on: the `.accordion ul li` items, the `.section` groups that own
    them, and which items carry the `active` class and which section radios
    are checked. */
module Accordion {
  import opened Wrappers

  /** One `.accordion ul li` entry: its `data-target` attribute (`""` when
      absent, which the handlers treat alike), the text of its `span`, and the
      index of the `.section` that contains it, if any. */
  datatype MenuItem = MenuItem(target: string, text: string, section: Option<nat>)

  /** The menu in document order; `hasRadio[k]` says whether section `k`
      holds an `input[type="radio"]`. */
  datatype Menu = Menu(items: seq<MenuItem>, hasRadio: seq<bool>)

  /** Items with the `active` class and sections whose radio is checked. */
  datatype Highlight = Highlight(active: set<nat>, checked: set<nat>)

  predicate IsRadio(m: Menu, k: nat) {
    k < |m.hasRadio| && m.hasRadio[k]
  }

  /** Only existing items are active and only existing radios are checked. */
  predicate Valid(m: Menu, h: Highlight) {
    (forall i :: i in h.active ==> i < |m.items|)
    && (forall k :: k in h.checked ==> IsRadio(m, k))
  }

  /** The radio of the section that owns item `i`, if both exist. */
  function RadioOf(m: Menu, i: nat): (r: Option<nat>)
    requires i < |m.items|
    ensures r.Some? <==> m.items[i].section.Some? && IsRadio(m, m.items[i].section.value)
    ensures r.Some? ==> r.value == m.items[i].section.value
  {
    match m.items[i].section
    case Some(k) => if IsRadio(m, k) then Some(k) else None
    case None => None
  }

  /** Removes `active` from every item, then adds it to item `i`. */
  function Activate(h: Highlight, i: nat): Highlight {
    h.(active := {i})
  }

  /** Checks the radio of the section that owns item `i`, if there is one. */
  function CheckOwner(m: Menu, h: Highlight, i: nat): Highlight
    requires i < |m.items|
  {
    match RadioOf(m, i)
    case Some(k) => h.(checked := h.checked + {k})
    case None => h
  }

  /** Item `i` becomes the only active item and its section's radio is checked;
      nothing else changes. */
  lemma ActivateAndCheck(m: Menu, h: Highlight, i: nat)
    requires i < |m.items| && Valid(m, h)
    ensures CheckOwner(m, Activate(h, i), i).active == {i}
    ensures RadioOf(m, i).Some? ==>
              CheckOwner(m, Activate(h, i), i).checked == h.checked + {RadioOf(m, i).value}
    ensures RadioOf(m, i).None? ==> CheckOwner(m, Activate(h, i), i).checked == h.checked
    ensures Valid(m, CheckOwner(m, Activate(h, i), i))
  {
  }

  /** The first section radio in document order. */
  function FirstRadio(m: Menu): (r: Option<nat>)
    ensures r.Some? ==> IsRadio(m, r.value) && forall k :: 0 <= k < r.value ==> !IsRadio(m, k)
    ensures r.None? ==> forall k :: 0 <= k < |m.hasRadio| ==> !IsRadio(m, k)
  {
    FirstTrue(m.hasRadio, 0)
  }

  function FirstTrue(s: seq<bool>, from: nat): (r: Option<nat>)
    requires from <= |s|
    requires forall k :: 0 <= k < from ==> !s[k]
    ensures r.Some? ==> r.value < |s| && s[r.value] && forall k :: 0 <= k < r.value ==> !s[k]
    ensures r.None? ==> forall k :: 0 <= k < |s| ==> !s[k]
    decreases |s| - from
  {
    if from == |s| then None
    else if s[from] then Some(from)
    else FirstTrue(s, from + 1)
  }

  /** The first item of section `k`: `label.nextElementSibling.querySelector('ul li')`. */
  function FirstItemIn(m: Menu, k: nat): (r: Option<nat>)
    ensures r.Some? ==> r.value < |m.items| && m.items[r.value].section == Some(k)
    ensures r.Some? ==> forall j :: 0 <= j < r.value ==> m.items[j].section != Some(k)
    ensures r.None? ==> forall j :: 0 <= j < |m.items| ==> m.items[j].section != Some(k)
  {
    FirstItemFrom(m.items, k, 0)
  }

  function FirstItemFrom(items: seq<MenuItem>, k: nat, from: nat): (r: Option<nat>)
    requires from <= |items|
    requires forall j :: 0 <= j < from ==> items[j].section != Some(k)
    ensures r.Some? ==> r.value < |items| && items[r.value].section == Some(k)
    ensures r.Some? ==> forall j :: 0 <= j < r.value ==> items[j].section != Some(k)
    ensures r.None? ==> forall j :: 0 <= j < |items| ==> items[j].section != Some(k)
    decreases |items| - from
  {
    if from == |items| then None
    else if items[from].section == Some(k) then Some(from)
    else FirstItemFrom(items, k, from + 1)
  }
}
