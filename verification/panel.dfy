/** The desktop content panel of js/desktop-panel.js: the content registries,
    the resolution of a menu item to content, and the transitions run by a
    menu-item click, the close button, a section-label click, the initial
    default click and a window resize. */
module Panel {
  import opened Wrappers
  import opened Text
  import ContentKey
  import opened Accordion
  import Zoom

  /** A content template, identified by name, with the two element ids that
      `initializeClonedContent` looks for inside a fresh clone. */
  datatype Content = Content(name: string, hasProductCarousel: bool, hasContactForm: bool)

  /** `window.customContents` (by key) and `window.sectionContents` (by section id). */
  datatype Registry = Registry(custom: map<string, Content>, sections: map<string, Content>)

  /** The element ids whose `.section-content` is copied into the panel; the
      About section lives in the element `footer`. */
  const SectionIds: set<string> := {"services", "products", "contact", "footer"}

  /** `extractSectionContents`: each of the four sections whose
      `.section-content` exists on the page (`page`, by element id) is wrapped
      in a container named `<id>-content`. */
  function ExtractSections(page: map<string, Content>): (r: map<string, Content>)
    ensures r.Keys == page.Keys * SectionIds
    ensures forall id :: id in r ==> r[id].name == id + "-content"
    ensures forall id :: id in r ==>
              r[id].hasProductCarousel == page[id].hasProductCarousel
              && r[id].hasContactForm == page[id].hasContactForm
    ensures "about" !in r
  {
    map id | id in page.Keys * SectionIds ::
      Content(id + "-content", page[id].hasProductCarousel, page[id].hasContactForm)
  }

  /** Custom content for `text` in `section` when registered under its key,
      otherwise the section's own content, otherwise nothing. The section
      fallback uses the section name as written, not lower-cased. */
  function Resolve(reg: Registry, section: string, text: string): (r: Option<Content>)
    ensures ContentKey.Key(section, text) in reg.custom ==>
              r == Some(reg.custom[ContentKey.Key(section, text)])
    ensures ContentKey.Key(section, text) !in reg.custom && section in reg.sections ==>
              r == Some(reg.sections[section])
    ensures r.None? <==> ContentKey.Key(section, text) !in reg.custom && section !in reg.sections
  {
    var key := ContentKey.Key(section, text);
    if key in reg.custom then Some(reg.custom[key])
    else if section in reg.sections then Some(reg.sections[section])
    else None
  }

  /** What `initializeClonedContent` wires up in a fresh clone. */
  datatype Widget = NoWidget | PanelCarousel | PanelForm

  /** The product carousel is started only for the item "Gallery" of section
      `products` and the form bound only for "Contact Form" of `contact`, both
      compared case-sensitively, and only when the clone holds the element id
      the code looks for. */
  function WidgetFor(section: string, text: string, c: Content): (r: Widget)
    ensures r == PanelCarousel <==> section == "products" && text == "Gallery" && c.hasProductCarousel
    ensures r == PanelForm <==> section == "contact" && text == "Contact Form" && c.hasContactForm
  {
    if section == "products" && text == "Gallery" && c.hasProductCarousel then PanelCarousel
    else if section == "contact" && text == "Contact Form" && c.hasContactForm then PanelForm
    else NoWidget
  }

  /** The panel: whether it has the `active` class, the menu highlight, the
      title text, the children of the scaled content area, the zoom state, the
      widget wired into the current content, and how many times the content
      area has been cleared (each clear discards the previous clone). */
  datatype PanelState = PanelState(
    open: bool,
    nav: Highlight,
    title: string,
    content: seq<Content>,
    zoom: Zoom.ZoomState,
    widget: Widget,
    clears: nat)

  /** `createContentPanel`: a closed panel titled "Welcome" with empty content. */
  function Initial(nav: Highlight): (r: PanelState)
    ensures !r.open && r.title == "Welcome" && r.content == [] && r.nav == nav
  {
    PanelState(false, nav, "Welcome", [], Zoom.Initial, NoWidget, 0)
  }

  /** A click on menu item `i`. Without a `data-target` nothing happens.
      Otherwise the section name is the target without its first character
      (`#`), the item becomes the only active one, the title becomes the
      trimmed text, the content area is cleared and its scale reset to 1, the
      resolved content (if any) is inserted, initialised and auto-fitted, the
      panel is shown and the owning section's radio is checked. */
  function Click(m: Menu, reg: Registry, st: PanelState, i: nat, box: Zoom.Box): PanelState
    requires i < |m.items|
  {
    var item := m.items[i];
    if item.target == "" then st
    else
      var section := item.target[1..];
      var text := Trim(item.text);
      var nav := CheckOwner(m, Activate(st.nav, i), i);
      var cleared := st.zoom.(shown := Zoom.Finite(1.0));
      match Resolve(reg, section, text)
      case Some(c) =>
        PanelState(true, nav, text, [c], Zoom.Fit(cleared, box), WidgetFor(section, text, c), st.clears + 1)
      case None =>
        PanelState(true, nav, text, [], cleared, NoWidget, st.clears + 1)
  }

  /** After a click on an item with a `data-target`: exactly that item is
      active, the title is its trimmed text, the previous content is gone and
      replaced by the resolved content (or by nothing), the panel is shown even
      when nothing resolved, and the owning section's radio is checked in
      addition to those already checked. */
  lemma ClickEffects(m: Menu, reg: Registry, st: PanelState, i: nat, box: Zoom.Box)
    requires i < |m.items| && m.items[i].target != ""
    requires Valid(m, st.nav)
    ensures var r := Click(m, reg, st, i, box);
            var item := m.items[i];
            var found := Resolve(reg, item.target[1..], Trim(item.text));
            && r.open
            && r.nav.active == {i}
            && r.title == Trim(item.text)
            && r.clears == st.clears + 1
            && (found.Some? ==> r.content == [found.value] && r.zoom.shown == Zoom.FitScale(box))
            && (found.None? ==> r.content == [] && r.zoom.shown == Zoom.Finite(1.0))
            && r.zoom.factor == st.zoom.factor
            && (RadioOf(m, i).Some? ==> RadioOf(m, i).value in r.nav.checked)
            && st.nav.checked <= r.nav.checked
            && Valid(m, r.nav)
  {
    ActivateAndCheck(m, st.nav, i);
  }

  /** A click on an item without a `data-target` changes nothing. */
  lemma ClickWithoutTarget(m: Menu, reg: Registry, st: PanelState, i: nat, box: Zoom.Box)
    requires i < |m.items| && m.items[i].target == ""
    ensures Click(m, reg, st, i, box) == st
  {
  }

  /** Clicking the already active item is not a no-op: the content is cleared
      and inserted anew, though the rest of the state comes out the same. */
  lemma ReclickClearsAgain(m: Menu, reg: Registry, st: PanelState, i: nat, box: Zoom.Box)
    requires i < |m.items| && m.items[i].target != ""
    ensures var once := Click(m, reg, st, i, box);
            var twice := Click(m, reg, once, i, box);
            twice.clears == once.clears + 1 && twice == once.(clears := once.clears + 1)
  {
  }

  /** Clicking item A and then item B leaves exactly B active, even across
      sections, and B's section radio checked. */
  lemma SecondClickWins(m: Menu, reg: Registry, st: PanelState, a: nat, b: nat, box: Zoom.Box)
    requires a < |m.items| && b < |m.items| && m.items[b].target != ""
    requires Valid(m, st.nav)
    ensures var r := Click(m, reg, Click(m, reg, st, a, box), b, box);
            r.nav.active == {b} && r.open
            && (RadioOf(m, b).Some? ==> RadioOf(m, b).value in r.nav.checked)
  {
    var mid := Click(m, reg, st, a, box);
    if m.items[a].target != "" {
      ClickEffects(m, reg, st, a, box);
    }
    ClickEffects(m, reg, mid, b, box);
  }

  /** The close button: the panel is hidden, no item is active and every
      section radio is unchecked; title, content and zoom are left as they are. */
  function Close(st: PanelState): (r: PanelState)
    ensures !r.open && r.nav.active == {} && r.nav.checked == {}
    ensures r.title == st.title && r.content == st.content && r.zoom == st.zoom
    ensures r.widget == st.widget && r.clears == st.clears
  {
    st.(open := false, nav := Highlight({}, {}))
  }

  /** Closing twice is closing once, and a click after a close shows the panel again. */
  lemma CloseThenClick(m: Menu, reg: Registry, st: PanelState, i: nat, box: Zoom.Box)
    requires i < |m.items| && m.items[i].target != ""
    ensures Close(Close(st)) == Close(st)
    ensures Click(m, reg, Close(st), i, box).open
    ensures Click(m, reg, Close(st), i, box).nav.active == {i}
  {
  }

  /** A click on the label of section `k` clicks the section's first item;
      a section without items ignores it. */
  function LabelClick(m: Menu, reg: Registry, st: PanelState, k: nat, box: Zoom.Box): (r: PanelState)
    ensures FirstItemIn(m, k).None? ==> r == st
    ensures FirstItemIn(m, k).Some? ==> r == Click(m, reg, st, FirstItemIn(m, k).value, box)
  {
    match FirstItemIn(m, k)
    case Some(j) => Click(m, reg, st, j, box)
    case None => st
  }

  /** A label click on a section whose first item has a target activates
      exactly that item, which belongs to the section, and opens the panel. */
  lemma LabelClickActivatesFirstItem(m: Menu, reg: Registry, st: PanelState, k: nat, box: Zoom.Box)
    requires FirstItemIn(m, k).Some? && m.items[FirstItemIn(m, k).value].target != ""
    requires Valid(m, st.nav)
    ensures var j := FirstItemIn(m, k).value;
            var r := LabelClick(m, reg, st, k, box);
            r.nav.active == {j} && m.items[j].section == Some(k) && r.open
            && (forall i :: 0 <= i < j ==> m.items[i].section != Some(k))
  {
    ClickEffects(m, reg, st, FirstItemIn(m, k).value, box);
  }

  /** `showDefaultContent`: the first menu item is clicked, if there is one. */
  function ShowDefault(m: Menu, reg: Registry, st: PanelState, box: Zoom.Box): (r: PanelState)
    ensures |m.items| == 0 ==> r == st
    ensures |m.items| > 0 ==> r == Click(m, reg, st, 0, box)
  {
    if |m.items| > 0 then Click(m, reg, st, 0, box) else st
  }

  /** The panel's breakpoint: below it the panel is hidden on resize. */
  const Breakpoint: int := 768

  /** A window resize: below the breakpoint the panel is hidden and nothing
      else changes; otherwise the content is fitted again. */
  function WindowResize(st: PanelState, width: int, box: Zoom.Box): (r: PanelState)
    ensures width < Breakpoint ==> !r.open && r.nav == st.nav && r.zoom == st.zoom
    ensures width >= Breakpoint ==> r.open == st.open && r.zoom.shown == Zoom.FitScale(box)
                                    && r.zoom.factor == st.zoom.factor
    ensures r.content == st.content && r.title == st.title && r.nav == st.nav
  {
    if width < Breakpoint then st.(open := false) else st.(zoom := Zoom.Fit(st.zoom, box))
  }

  /** With the registered custom keys, clicking "Wedding Cakes" in the
      products section shows the custom entry, whatever the section content. */
  lemma WeddingCakesResolvesToCustom(reg: Registry, section: string, text: string)
    requires section == "products" && text == "Wedding Cakes"
    requires "products-wedding-cakes" in reg.custom
    ensures Resolve(reg, section, text) == Some(reg.custom["products-wedding-cakes"])
  {
    ContentKey.WeddingCakesKey(section, text);
  }
}
