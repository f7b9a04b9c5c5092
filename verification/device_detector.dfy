/** The device-type decision of js/device-detector.js: the session cache of
    the last decision, the width/touch/user-agent rule of `isMobile`, the
    stylesheet paths, the initial load, and the resize handler that switches
    stylesheets when the type changes. `sessionStorage` is the `cache`
    parameter, `Date.now()` the `now` parameter, and the browser's
    measurements and capabilities a `Signals` record. */
module DeviceDetector {
  import opened Wrappers
  import opened Text

  /** The width below which a device counts as mobile. */
  const Breakpoint: int := 768

  /** How long a stored decision stays valid: one hour in milliseconds. */
  const CacheDuration: int := 1000 * 60 * 60

  /** The three device-specific stylesheets, in load order. */
  const CssFiles: seq<string> := ["style.css", "animations.css", "3d-carousel.css"]

  /** The stored record: the type string and the time it was stored. */
  datatype Entry = Entry(kind: string, timestamp: int)

  /** `getStoredDeviceType`: the stored type while it is less than an hour old. */
  function StoredType(cache: Option<Entry>, now: int): (r: Option<string>)
    ensures r.Some? <==> cache.Some? && now - cache.value.timestamp < CacheDuration
    ensures r.Some? ==> r.value == cache.value.kind
  {
    match cache
    case Some(e) => if now - e.timestamp < CacheDuration then Some(e.kind) else None
    case None => None
  }

  /** What `isMobile` reads from the browser. Absent `msMaxTouchPoints` is 0. */
  datatype Signals = Signals(
    innerWidth: int, clientWidth: int, bodyWidth: int,
    touchStartInWindow: bool, maxTouchPoints: int, msMaxTouchPoints: int,
    userAgent: string)

  /** `innerWidth || clientWidth || body.clientWidth`: the first non-zero width. */
  function ScreenWidth(s: Signals): (r: int)
    ensures s.innerWidth != 0 ==> r == s.innerWidth
    ensures s.innerWidth == 0 && s.clientWidth != 0 ==> r == s.clientWidth
    ensures s.innerWidth == 0 && s.clientWidth == 0 ==> r == s.bodyWidth
  {
    if s.innerWidth != 0 then s.innerWidth
    else if s.clientWidth != 0 then s.clientWidth
    else s.bodyWidth
  }

  function HasTouch(s: Signals): bool {
    s.touchStartInWindow || s.maxTouchPoints > 0 || s.msMaxTouchPoints > 0
  }

  /** The user-agent alternatives, lower-cased; the pattern is matched
      case-insensitively, which for these ASCII words is ASCII lower-casing. */
  const MobileTokens: seq<string> :=
    ["android", "webos", "iphone", "ipad", "ipod", "blackberry", "iemobile", "opera mini"]

  /** The user agent matches one of the alternatives anywhere. */
  predicate MobileAgent(ua: string) {
    exists t :: t in MobileTokens && Contains(Lower(ua), t)
  }

  /** The user-agent test ignores letter case. */
  lemma AgentIgnoresCase(ua: string)
    ensures MobileAgent(ua) <==> MobileAgent(Lower(ua))
  {
    LowerIdempotent(ua);
  }

  /** The decision rule: mobile below the breakpoint, unless touch capability
      and the user agent agree with each other and both disagree with width. */
  function Decide(narrow: bool, touch: bool, agent: bool): (r: bool)
    ensures r != narrow ==> touch == agent && r == touch
    ensures touch != agent ==> r == narrow
  {
    if touch == agent && touch != narrow then touch else narrow
  }

  /** The rule is a majority vote of the three signals. */
  lemma DecideIsMajority(narrow: bool, touch: bool, agent: bool)
    ensures Decide(narrow, touch, agent) == ((narrow && touch) || (narrow && agent) || (touch && agent))
  {
  }

  function TypeName(mobile: bool): (r: string)
    ensures r == "mobile" || r == "desktop"
    ensures r == "mobile" <==> mobile
  {
    if mobile then "mobile" else "desktop"
  }

  /** `isMobile`: a non-empty stored type less than an hour old decides (only
      `mobile` counts as mobile); otherwise the signals decide and the result
      is stored with the current time. Returns the decision and the cache. */
  function IsMobile(cache: Option<Entry>, now: int, s: Signals, agent: bool): (r: (bool, Option<Entry>))
    requires agent == MobileAgent(s.userAgent)
    ensures StoredType(cache, now).Some? && StoredType(cache, now).value != "" ==>
              r == (StoredType(cache, now).value == "mobile", cache)
    ensures !(StoredType(cache, now).Some? && StoredType(cache, now).value != "") ==>
              r.0 == Decide(ScreenWidth(s) < Breakpoint, HasTouch(s), agent)
              && r.1 == Some(Entry(TypeName(r.0), now))
  {
    var stored := StoredType(cache, now);
    if stored.Some? && stored.value != "" then (stored.value == "mobile", cache)
    else
      var mobile := Decide(ScreenWidth(s) < Breakpoint, HasTouch(s), agent);
      (mobile, Some(Entry(TypeName(mobile), now)))
  }

  /** A decision just stored is what the next call within the hour returns,
      whatever the signals are by then. */
  lemma CacheAnswersWithinHour(cache: Option<Entry>, now: int, later: int, s: Signals, s2: Signals,
                               agent: bool, agent2: bool)
    requires agent == MobileAgent(s.userAgent) && agent2 == MobileAgent(s2.userAgent)
    requires now <= later < now + CacheDuration
    ensures var (m, c) := IsMobile(cache, now, s, agent);
            IsMobile(c, later, s2, agent2) == (m, c) || c == cache
  {
  }

  /** `css/<type>/<file>` for each device-specific stylesheet. */
  function Hrefs(kind: string): (r: seq<string>)
    ensures |r| == |CssFiles|
    ensures forall i :: 0 <= i < |CssFiles| ==> r[i] == "css/" + kind + "/" + CssFiles[i]
  {
    seq(|CssFiles|, i requires 0 <= i < |CssFiles| => "css/" + kind + "/" + CssFiles[i])
  }

  /** The mobile and desktop stylesheets never share a path. */
  lemma HrefsDistinguishTypes()
    ensures forall i, j :: 0 <= i < |CssFiles| && 0 <= j < |CssFiles| ==>
              Hrefs("mobile")[i] != Hrefs("desktop")[j]
  {
    forall i, j | 0 <= i < |CssFiles| && 0 <= j < |CssFiles|
      ensures Hrefs("mobile")[i] != Hrefs("desktop")[j]
    {
      assert Hrefs("mobile")[i][4] == 'm';
      assert Hrefs("desktop")[j][4] == 'd';
    }
  }

  /** The document: the `data-device` attribute of `<html>`, its classes, the
      hrefs of the `.device-specific-css` links, whether the common sheet was
      added, and the session cache. */
  datatype Page = Page(
    dataDevice: Option<string>,
    classes: set<string>,
    links: seq<string>,
    common: bool,
    cache: Option<Entry>)

  /** The first half of `loadStylesheets`, up to the preload: the type is
      decided (and maybe stored) and `css/common.css` added. */
  function LoadStart(p: Page, now: int, s: Signals, agent: bool): (r: (Page, string))
    requires agent == MobileAgent(s.userAgent)
    ensures r.0.common && r.0.dataDevice == p.dataDevice && r.0.links == p.links
    ensures r.1 == TypeName(IsMobile(p.cache, now, s, agent).0)
    ensures r.0.cache == IsMobile(p.cache, now, s, agent).1
  {
    var (m, c) := IsMobile(p.cache, now, s, agent);
    (p.(common := true, cache := c), TypeName(m))
  }

  /** The second half, once the preload has resolved: the stylesheets of the
      decided type are linked, and the attribute and the class set. */
  function LoadFinish(p: Page, kind: string): (r: Page)
    ensures r.links == p.links + Hrefs(kind)
    ensures r.dataDevice == Some(kind) && kind in r.classes
    ensures r.common == p.common && r.cache == p.cache
  {
    p.(links := p.links + Hrefs(kind), dataDevice := Some(kind), classes := p.classes + {kind})
  }

  /** Space, tab, line feed, form feed and carriage return. */
  predicate AsciiSpace(c: char) {
    c == ' ' || c == '\t' || c == '\n' || c == '\r' || c as int == 0x0C
  }

  /** Whether `classList.remove(token)` throws: an empty token is a syntax
      error, one holding ASCII whitespace an invalid-character error. */
  predicate BadToken(t: string) {
    t == "" || exists i :: 0 <= i < |t| && AsciiSpace(t[i])
  }

  /** How a handler run ends: normally, or by throwing part-way. */
  datatype Outcome = Done(page: Page) | Threw(page: Page)

  /** `handleResize` as written. The current type is the attribute, or `""`
      when it is absent; the new one comes from `isMobile`, cache included.
      When they are equal only the cache may have been refreshed. Otherwise
      the device links are removed and the new type stored, and then
      `classList.remove(current)` throws for an absent attribute, so this run
      sets neither the class, the attribute nor the new links. */
  function HandleResize(p: Page, now: int, s: Signals, agent: bool): (r: Outcome)
    requires agent == MobileAgent(s.userAgent)
  {
    var current := p.dataDevice.GetOr("");
    var (m, c) := IsMobile(p.cache, now, s, agent);
    var next := TypeName(m);
    if current == next then Done(p.(cache := c))
    else
      var removed := p.(links := [], cache := Some(Entry(next, now)));
      if BadToken(current) then Threw(removed)
      else Done(removed.(classes := p.classes - {current} + {next},
                         dataDevice := Some(next), links := Hrefs(next)))
  }

  /** An unchanged type changes nothing but the cache; a changed type whose
      old name is a valid token replaces the class, the attribute and the
      links, and stores the new type. */
  lemma HandleResizeEffects(p: Page, now: int, s: Signals, agent: bool)
    requires agent == MobileAgent(s.userAgent)
    ensures var next := TypeName(IsMobile(p.cache, now, s, agent).0);
            var r := HandleResize(p, now, s, agent);
            && (p.dataDevice == Some(next) ==> r == Done(p.(cache := r.page.cache)))
            && (p.dataDevice.Some? && p.dataDevice != Some(next) && !BadToken(p.dataDevice.value) ==>
                  r.Done? && r.page.dataDevice == Some(next)
                  && r.page.classes == p.classes - {p.dataDevice.value} + {next}
                  && r.page.links == Hrefs(next)
                  && r.page.cache == Some(Entry(next, now)))
  {
  }

  /** While the attribute is absent, a resize reaches `classList.remove("")`:
      the run throws after the existing device links were removed, and this
      run sets neither the attribute, the class nor the device stylesheets. */
  lemma ResizeBeforeLoadThrows(p: Page, now: int, s: Signals, agent: bool)
    requires agent == MobileAgent(s.userAgent)
    requires p.dataDevice.None?
    ensures HandleResize(p, now, s, agent).Threw?
    ensures HandleResize(p, now, s, agent).page.dataDevice.None?
    ensures HandleResize(p, now, s, agent).page.links == []
  {
  }

  /** A concrete instance: the page right after `LoadStart`. */
  lemma ResizeDuringPreload(p0: Page, now: int, s: Signals, agent: bool)
    requires agent == MobileAgent(s.userAgent)
    requires p0 == Page(None, {}, [], false, None)
    ensures var (p1, _) := LoadStart(p0, now, s, agent);
            HandleResize(p1, now, s, agent).Threw?
  {
  }

  /** The throw during the preload costs only the rest of that run: within
      the hour the resize re-stores the type being loaded, and once the
      preload resolves `LoadFinish` installs that type as if no resize had
      happened, apart from the cache's time stamp. */
  lemma PreloadResizeIsHarmless(p0: Page, now: int, later: int, s: Signals, s2: Signals,
                                agent: bool, agent2: bool)
    requires agent == MobileAgent(s.userAgent) && agent2 == MobileAgent(s2.userAgent)
    requires p0 == Page(None, {}, [], false, None)
    requires now <= later < now + CacheDuration
    ensures var (p1, kind) := LoadStart(p0, now, s, agent);
            var r := HandleResize(p1, later, s2, agent2);
            r.Threw? && r.page.cache == Some(Entry(kind, later))
            && LoadFinish(r.page, kind) == LoadFinish(p1, kind).(cache := Some(Entry(kind, later)))
  {
  }

  /** Within an hour of a stored decision the resize handler never switches
      type, whatever the window has become: `isMobile` answers from the cache. */
  lemma ResizeIgnoresSignalsWithinHour(p: Page, stored: int, now: int, s: Signals, agent: bool)
    requires agent == MobileAgent(s.userAgent)
    requires p.cache == Some(Entry("desktop", stored)) && p.dataDevice == Some("desktop")
    requires stored <= now < stored + CacheDuration
    ensures HandleResize(p, now, s, agent) == Done(p)
  {
  }

  /** A window that shrank to 500 px on a touch phone, one second after a
      desktop decision was stored, keeps the desktop stylesheets although
      the signals say mobile. */
  lemma NarrowedWindowStaysDesktop(p: Page, s: Signals, agent: bool)
    requires agent == MobileAgent(s.userAgent)
    requires p.cache == Some(Entry("desktop", 0)) && p.dataDevice == Some("desktop")
    requires s.innerWidth == 500 && s.touchStartInWindow && agent
    ensures Decide(ScreenWidth(s) < Breakpoint, HasTouch(s), agent)
    ensures HandleResize(p, 1000, s, agent).page.dataDevice == Some("desktop")
  {
  }

  /** `handleResize` with only the throw removed: the type still comes from
      `isMobile`, cache included, and the old class is removed only when it
      is a valid token. */
  function HandleResizeGuarded(p: Page, now: int, s: Signals, agent: bool): (r: Page)
    requires agent == MobileAgent(s.userAgent)
  {
    var current := p.dataDevice.GetOr("");
    var (m, c) := IsMobile(p.cache, now, s, agent);
    var next := TypeName(m);
    if current == next then p.(cache := c)
    else
      var kept := if BadToken(current) then p.classes else p.classes - {current};
      p.(links := Hrefs(next), cache := Some(Entry(next, now)),
         classes := kept + {next}, dataDevice := Some(next))
  }

  /** The guarded handler always completes with the attribute, the class and
      the stylesheets of the type `isMobile` answers, including on a page
      whose attribute is absent; wherever the handler as written completes,
      the two agree. */
  lemma ResizeGuardedNeverThrows(p: Page, now: int, s: Signals, agent: bool)
    requires agent == MobileAgent(s.userAgent)
    requires p.dataDevice.Some? ==> p.links == Hrefs(p.dataDevice.value) && p.dataDevice.value in p.classes
    ensures var next := TypeName(IsMobile(p.cache, now, s, agent).0);
            var r := HandleResizeGuarded(p, now, s, agent);
            r.dataDevice == Some(next) && next in r.classes && r.links == Hrefs(next)
    ensures HandleResize(p, now, s, agent).Done? ==>
              HandleResize(p, now, s, agent).page == HandleResizeGuarded(p, now, s, agent)
    ensures p.dataDevice.None? ==>
              HandleResizeGuarded(p, now, s, agent).cache
              == Some(Entry(TypeName(IsMobile(p.cache, now, s, agent).0), now))
  {
  }

  /** The resize handler as evidently intended: the type is decided afresh
      from the signals (and stored), and the old class is removed only when
      it is a valid token. */
  function HandleResizeFixed(p: Page, now: int, s: Signals, agent: bool): (r: Page)
    requires agent == MobileAgent(s.userAgent)
  {
    var mobile := Decide(ScreenWidth(s) < Breakpoint, HasTouch(s), agent);
    var next := TypeName(mobile);
    var current := p.dataDevice.GetOr("");
    if current == next then p.(cache := Some(Entry(next, now)))
    else
      var kept := if BadToken(current) then p.classes else p.classes - {current};
      p.(links := Hrefs(next), cache := Some(Entry(next, now)),
         classes := kept + {next}, dataDevice := Some(next))
  }

  /** The corrected handler always completes with the attribute, the class
      and the stylesheets of the type the signals decide, from any page,
      including one whose attribute is absent. */
  lemma ResizeFixedNeverThrows(p: Page, now: int, s: Signals, agent: bool)
    requires agent == MobileAgent(s.userAgent)
    requires p.dataDevice.Some? ==> p.links == Hrefs(p.dataDevice.value) && p.dataDevice.value in p.classes
    ensures var next := TypeName(Decide(ScreenWidth(s) < Breakpoint, HasTouch(s), agent));
            var r := HandleResizeFixed(p, now, s, agent);
            r.dataDevice == Some(next) && next in r.classes && r.links == Hrefs(next)
            && r.cache == Some(Entry(next, now))
  {
  }

  /** The corrected handler follows the signals: a window that becomes narrow
      on a touch phone switches to mobile even with a fresh desktop entry. */
  lemma ResizeFixedFollowsSignals(p: Page, s: Signals, agent: bool)
    requires agent == MobileAgent(s.userAgent)
    requires p.cache == Some(Entry("desktop", 0)) && p.dataDevice == Some("desktop")
    requires s.innerWidth == 500 && s.touchStartInWindow && agent
    ensures HandleResizeFixed(p, 1000, s, agent).dataDevice == Some("mobile")
    ensures "desktop" !in HandleResizeFixed(p, 1000, s, agent).classes
  {
  }
}
