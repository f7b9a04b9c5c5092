# Cake Walk Baking Co. site scripts — a Dafny model

This project models the logic underneath the site's front-end scripts. Each
rule takes the page's measurements and flags as plain inputs and returns a
new abstract state. The modelled rules are:

- the desktop content panel (`js/desktop-panel.js`):
  - the custom-content key and content resolution;
  - the menu-item click, close button, section-label click, default click and resize;
  - the auto-fit scale and the zoom factor;
  - the carousel embedded in the panel;
- the contact-form validators and the submit rule (`js/main.js`);
- section-by-section snap navigation and the dot navigation, including its keyboard control (`js/main.js`);
- the device-type decision with its session cache, the stylesheet paths and the resize handler (`js/device-detector.js`);
- the slide-in mobile menu (`js/mobile-menu.js`);
- the desktop accordion highlight (`js/desktop-nav.js`);
- the 3D product ring (`js/3d-carousel.js`).

Files and modules, one module per file:

| file | module | contents |
|---|---|---|
| `wrappers.dfy` | `Wrappers` | `Option` |
| `text.dfy` | `Text` | JavaScript's `\s` and `\w` classes, ASCII `toLowerCase`, `trim`, `indexOf` and `replace` with a string pattern |
| `content_key.dfy` | `ContentKey` | `createCustomContentKey` and the registered keys |
| `accordion.dfy` | `Accordion` | menu items, active items and checked section radios, shared by the panel and the desktop nav |
| `zoom.dfy` | `Zoom` | JavaScript numbers for division and `Math.min`, auto-fit, zoom |
| `panel.dfy` | `Panel` | the panel's registries and its transitions |
| `panel_carousel.dfy` | `PanelCarousel` | `initPanelProductCarousel` and the rotate button |
| `ring.dfy` | `Ring` | the 3D ring |
| `contact_form.dfy` | `ContactForm` | `validateInput` and the submit handler |
| `snap_nav.dfy` | `SnapNav` | wheel, touch, dots and keys |
| `device_detector.dfy` | `DeviceDetector` | cache, decision, stylesheets, resize |
| `mobile_menu.dfy` | `MobileMenu` | open and close, swipes, initial ARIA state |
| `desktop_nav.dfy` | `DesktopNav` | click highlight, `updateActiveMenuItem`, the default radio |

Some behaviour a reader might expect is not what the code does. The model follows the code:

- A click on the item that is already active is not a no-op. The content area is cleared and filled again (`Panel.ReclickClearsAgain`).
- A click whose content resolves to nothing still clears the content area and opens the panel. The transition is not abandoned.
- Auto-fit is not skipped when the content measures zero. It divides by zero, and a 0/0 ratio makes the assigned scale NaN (`Zoom.ZeroBoxGivesNaN`). CSS rejects `scale(NaN)`, so the content keeps the `scale(1)` assigned just before the measurement. Later zoom buttons assign NaN again and change nothing visible.
- A click checks the owning section's radio. It does not uncheck the other radios. Only the browser's radio grouping, which the markup decides, could do that.
- The About section's content is looked up under the element id `footer`. Its custom keys start with `footer-`, not `about-`.
- The label slug deletes hyphens rather than keeping them, so slugging a slug can change it (`ContentKey.HyphenIsStripped`).

## Model

| member | source | states |
|---|---|---|
| Text.LowerChar | js/desktop-panel.js:460 | `toLowerCase` moves an ASCII capital 32 code points down to its small letter and keeps every other character; no capital is left |
| Text.LowerAppend | js/desktop-panel.js:460 | lower-casing works character by character: lower-casing a concatenation concatenates the lower-cased parts |
| Text.TrimStart | js/main.js:197 | the leading cut is a suffix of the input; everything dropped is whitespace and the result does not start with whitespace |
| Text.TrimEnd | js/main.js:197 | the trailing cut is a prefix of the input; everything dropped is whitespace and the result does not end with whitespace |
| Text.Trim | js/main.js:197 | the trimmed value is no longer than the input and neither starts nor ends with whitespace |
| Text.TrimSlice | js/main.js:197 | `trim` keeps one contiguous slice of its input; everything cut off before and after it is whitespace |
| Text.TrimIdempotent | js/main.js:197 | trimming a trimmed value changes nothing |
| Text.LowerIdempotent | js/desktop-panel.js:460-461 | lower-casing twice is lower-casing once |
| Text.FirstIndexOf | js/3d-carousel.js:55 | the index returned is an occurrence of the pattern with none before it; no index means no occurrence anywhere |
| Text.ReplaceFirstSpec | js/3d-carousel.js:55 | with no occurrence the string is unchanged; otherwise exactly the first occurrence is replaced and the text before and after it is kept |
| ContentKey.KeepWordAndSpace | js/desktop-panel.js:461 | the filter keeps only word characters and whitespace, and leaves a string made only of those unchanged |
| ContentKey.KeepAppend | js/desktop-panel.js:461 | the filter works character by character: filtering a concatenation is concatenating the filtered parts |
| ContentKey.CollapseSpaces | js/desktop-panel.js:461 | the result holds no whitespace; a leading non-space character is kept and a leading whitespace run becomes `-` |
| ContentKey.InRunSwallows | js/desktop-panel.js:461 | whitespace that continues a run adds nothing to the result |
| ContentKey.CollapseRun | js/desktop-panel.js:461 | a maximal whitespace run of any length becomes one `-` (nothing when it continues a run), and the rest collapses on its own |
| ContentKey.CollapseRunAfterWord | js/desktop-panel.js:461 | a maximal whitespace run of any length after a word becomes exactly one `-`, with the word kept and the rest collapsed in the same way, wherever it stands |
| ContentKey.CollapseKeepsWordChars | js/desktop-panel.js:461 | filtering and collapsing keep exactly the input's word characters, in order; every other character of the result is a `-` |
| ContentKey.CollapseNoSpace | js/desktop-panel.js:461 | a string without whitespace is left as it is |
| ContentKey.CollapseChars | js/desktop-panel.js:461 | every character of the collapsed string is a `-` or comes from the input |
| ContentKey.CollapseNoDoubleHyphen | js/desktop-panel.js:461 | collapsing a hyphen-free string never yields two hyphens in a row |
| ContentKey.SlugShape | js/desktop-panel.js:458-463 | a slug holds only lower-case letters, digits, `_` and `-`, never two hyphens in a row, and without its hyphens it is exactly the word characters of the lower-cased label, in order |
| ContentKey.KeepChars | js/desktop-panel.js:461 | every character the filter keeps occurs in its input |
| ContentKey.SlugIgnoresCase | js/desktop-panel.js:460-461 | a label and its lower-cased form have the same slug |
| ContentKey.SlugIgnoresPunctuation | js/desktop-panel.js:461 | inserting a character that is neither a word character nor whitespace anywhere in a label leaves its slug unchanged |
| ContentKey.KeySplits | js/desktop-panel.js:458-463 | for a hyphen-free section name the key's first hyphen sits right after the lower-cased section, and the key splits there into that section and the slug |
| ContentKey.CollapseWordPrefix | js/desktop-panel.js:461 | a whitespace-free prefix passes through collapsing unchanged |
| ContentKey.SlugOfTwoWords | js/desktop-panel.js:461 | two words separated by one space slug to the lower-cased words joined by one hyphen |
| ContentKey.SlugOfOneWord | js/desktop-panel.js:461 | a one-word label slugs to its lower-cased self |
| ContentKey.LowerKeepsLowercase | js/desktop-panel.js:460 | lower-casing leaves a string without upper-case letters unchanged |
| ContentKey.WeddingCakesSlug | js/desktop-panel.js:461 | "Wedding Cakes" slugs to `wedding-cakes` |
| ContentKey.WeddingCakesKey | js/desktop-panel.js:159-183 | "Wedding Cakes" in section `products` yields `products-wedding-cakes`, which is a registered key |
| ContentKey.ShoutedWeddingCakesKey | js/desktop-panel.js:458-463 | "Wedding Cakes!" yields the same key as "Wedding Cakes" |
| ContentKey.SlugStripsHyphen | js/desktop-panel.js:461 | two lower-case words joined by a hyphen slug to the words run together: the hyphen is deleted, not kept |
| ContentKey.HyphenIsStripped | js/desktop-panel.js:461 | slugging `wedding-cakes` again gives `weddingcakes`, so the slug is not idempotent |
| ContentKey.AboutKeyPrefix | js/desktop-panel.js:159-183 | "Story" is registered under section `footer`, and under section `about` its key is not registered |
| ContentKey.OurMissionMisses | js/desktop-panel.js:159-183 | the label "Our Mission" in section `services` does not reach the registered `services-mission`, because every word of a label enters the key |
| Accordion.RadioOf | js/desktop-panel.js:249-255 | an item has a radio exactly when it lies in a section and that section holds a radio; the radio is that section's |
| Accordion.ActivateAndCheck | js/desktop-panel.js:207-255 | after a click the item is the only active one, its section's radio is added to the checked ones, nothing else changes, and validity is kept |
| Accordion.FirstRadio | js/desktop-nav.js:88-93 | the radio found is a radio and no earlier section has one; none found means there are no radios |
| Accordion.FirstItemIn | js/desktop-panel.js:265 | the item found belongs to the section and no earlier item does; none found means the section has no items |
| Panel.ExtractSections | js/desktop-panel.js:128-154 | exactly the four sections present on the page are stored, each wrapped as `<id>-content` with its embedded widgets; there is no `about` entry |
| Panel.Resolve | js/desktop-panel.js:223-231 | a registered key wins, otherwise the section's own content; nothing resolves exactly when neither exists |
| Panel.WidgetFor | js/desktop-panel.js:279-319 | the carousel starts only for "Gallery" in `products` and the form is bound only for "Contact Form" in `contact`, both case-sensitive, and each only when the clone holds its element |
| Panel.Initial | js/desktop-panel.js:63 | the panel starts closed, titled "Welcome", with no content |
| Panel.ClickEffects | js/desktop-panel.js:194-256 | after a click on an item with a target: only it is active; the title is its trimmed text; the old content was cleared and the resolved content, or nothing, inserted; the panel is open even when nothing resolved; its section's radio is checked; the zoom factor is kept |
| Panel.ClickWithoutTarget | js/desktop-panel.js:197-198 | a click on an item without a target changes nothing |
| Panel.ReclickClearsAgain | js/desktop-panel.js:213-217 | clicking the active item again clears the content once more and otherwise gives the same state |
| Panel.SecondClickWins | js/desktop-panel.js:207-208 | after clicks on A and then B, only B is active, the panel is open and B's radio is checked |
| Panel.Close | js/desktop-panel.js:108-122 | closing hides the panel, deactivates every item and unchecks every radio; title, content and zoom are untouched |
| Panel.CloseThenClick | js/desktop-panel.js:108-122 | closing twice is closing once, and a click after a close opens the panel with the clicked item active |
| Panel.LabelClick | js/desktop-panel.js:259-273 | a label click clicks its section's first item, and does nothing for a section without items |
| Panel.LabelClickActivatesFirstItem | js/desktop-panel.js:263-271 | a label click activates exactly the first item of that section and opens the panel |
| Panel.ShowDefault | js/desktop-panel.js:429-437 | the first menu item is clicked, and nothing happens on an empty menu |
| Panel.WindowResize | js/desktop-panel.js:442-453 | below 768 px the panel is hidden with highlight and zoom kept; otherwise the content is fitted again; content and title never change |
| Panel.WeddingCakesResolvesToCustom | js/desktop-panel.js:223-227 | with the key registered, "Wedding Cakes" in `products` shows the custom entry, not the section content |
| Zoom.Div | js/desktop-panel.js:502-503 | division by a non-zero size is exact; division by zero gives NaN exactly when the dividend is zero |
| Zoom.Min | js/desktop-panel.js:506 | `Math.min` is NaN exactly when an argument is, and otherwise one of its arguments |
| Zoom.FitScale | js/desktop-panel.js:502-506 | with a laid-out content box the fit scale is finite, at most 1, at most each ratio, and equal to one of them; it is never +∞ |
| Zoom.Fit | js/desktop-panel.js:488-513 | auto-fit assigns the fit scale to the transform, stores it as the baseline and keeps the zoom factor |
| Zoom.ZoomIn | js/desktop-panel.js:533-536 | zoom-in raises the factor by 0.1 and assigns baseline × factor |
| Zoom.ZoomOut | js/desktop-panel.js:538-541 | zoom-out lowers the factor by 0.1 but never below 0.1, and assigns baseline × factor |
| Zoom.Reset | js/desktop-panel.js:543-546 | reset sets the factor back to 1 and fits again |
| Zoom.Wheel | js/desktop-panel.js:554-564 | without ctrl the wheel does nothing; with ctrl, upwards zooms in and anything else zooms out |
| Zoom.ZoomOutUndoesZoomIn | js/desktop-panel.js:533-541 | zoom-out after zoom-in restores the factor and the assigned scale |
| Zoom.ZoomInUndoesZoomOut | js/desktop-panel.js:533-541 | zoom-in after a zoom-out that the floor did not clip restores the factor |
| Zoom.ThreeZoomIns | js/desktop-panel.js:548-551 | three zoom-ins over a baseline of 0.6 assign 0.78 |
| Zoom.FactorStaysAboveFloor | js/desktop-panel.js:530-564 | no sequence of zoom buttons, ctrl-wheel turns and resets takes the factor below 0.1 |
| Zoom.ShownIsBaselineTimesFactor | js/desktop-panel.js:548-551 | after every zoom button the assigned scale is the stored baseline (1 when absent) times the factor |
| Zoom.FitNeverUpscales | js/desktop-panel.js:502-506 | for non-negative boxes the fit scale lies in [0, 1] or is NaN |
| Zoom.ZeroBoxGivesNaN | js/desktop-panel.js:502-506 | a zero content box in a zero container gives NaN instead of skipping the fit |
| PanelCarousel.Init | js/desktop-panel.js:337-388 | with no figures nothing is positioned or animated; otherwise figure i gets angle i·360/N and radius 250px, no figure is active and the rotation runs |
| PanelCarousel.FigureClick | js/desktop-panel.js:367-381 | clicking an inactive figure makes it the only active one and pauses; clicking the active one leaves none active and resumes |
| PanelCarousel.RotateButton | js/desktop-panel.js:407-417 | the rotate button toggles the pause and shows the play icon exactly when it paused |
| PanelCarousel.OneActivePreserved | js/desktop-panel.js:367-381 | at most one figure is ever active |
| PanelCarousel.ClickTwiceResumes | js/desktop-panel.js:367-381 | clicking one figure twice resumes with none active; clicking another one second makes it the only active one and pauses |
| PanelCarousel.IconCanDisagree | js/desktop-panel.js:367-417 | after a figure click pauses the carousel, the rotate button still shows its pause icon |
| Ring.Angles | js/3d-carousel.js:22-30 | the ring of N figures has N angles, figure i at i·360/N |
| Ring.AngleOrder | js/3d-carousel.js:23-27 | angles are non-negative and grow with the index |
| Ring.AnglesSpread | js/3d-carousel.js:22-30 | every angle lies in [0, 360), the angles strictly increase, so no two figures share one, and the first is 0 |
| Ring.Distance | js/3d-carousel.js:19 | the trimmed custom property is the distance, and `350px` when it is empty |
| Ring.DefaultDistanceNumber | js/3d-carousel.js:55 | removing the first `px` from `350px` leaves `350` |
| Ring.DefaultTransform | js/3d-carousel.js:53-57 | with the default distance a figure's transform ends in `translateZ(350px)` |
| Ring.TransformWithoutPx | js/3d-carousel.js:53-57 | a distance without `px` is used as it is, followed by `px` |
| Ring.Init | js/3d-carousel.js:17-36 | each figure stores its angle and gets the transform for it and the current distance, and that transform is stored for hover restore |
| Ring.HoverRestores | js/3d-carousel.js:36-49 | entering twice is entering once; leaving restores the stored transform exactly, whatever came before |
| Ring.Resize | js/3d-carousel.js:63-74 | a resize keeps each figure's angle, recomputes only the distance and stores the new transform for hover restore |
| Ring.ResizeKeepsLayout | js/3d-carousel.js:63-74 | a resize with an unchanged distance reproduces the initial layout |
| Ring.Refresh | js/3d-carousel.js:149-162 | the first sighting reapplies each stored angle with the current distance and stops observing; the hover transform is not refreshed |
| Ring.RefreshOnce | js/3d-carousel.js:140-165 | once observation has stopped, a second refresh changes nothing |
| ContactForm.IsEmail | js/main.js:210 | the one-pass check answers true exactly when the email pattern matches |
| ContactForm.Message | js/main.js:204-223 | the error text is left alone exactly for an empty phone and for other ids; otherwise it is empty exactly when the field is valid |
| ContactForm.Validate | js/main.js:196-231 | the result is the field's rule applied to the trimmed value, and the error text matches the result |
| ContactForm.Submit | js/main.js:160-193 | every field is validated and reported in order, and the form is accepted exactly when every field passes its rule |
| ContactForm.ReportsAccept | js/main.js:163-170 | reported verdicts are all valid exactly when every field is accepted |
| ContactForm.TrimDoesNotMatter | js/main.js:197 | a value and its trimmed form are accepted alike |
| ContactForm.EmailHasOneAt | js/main.js:210 | an accepted email has at least five characters and exactly one `@` |
| ContactForm.SampleEmails | js/main.js:210 | `a@b.c` passes; `a@bc`, `a@@b.c` and `a @b.c` fail |
| SnapNav.CurrentSection | js/main.js:266-270 | the current section is the first whose top is within 100 px of the viewport's top, and none means no section is |
| SnapNav.Neighbour | js/main.js:274-277 | the target is the current index ± 1 and exists exactly when it is a section index |
| SnapNav.Wheel | js/main.js:259-285 | while locked the wheel is swallowed; with a current section it is prevented and scrolls one step, locking exactly when the target exists |
| SnapNav.TouchStart | js/main.js:288-291 | touchstart records the finger's position and keeps the lock |
| SnapNav.TouchMove | js/main.js:293-321 | while locked the move is swallowed; a move of 50 px or less does nothing; a longer one scrolls one step towards the travel and restarts the measurement |
| SnapNav.Unlock | js/main.js:280-282 | the cooldown releases the lock |
| SnapNav.MovesStepByOne | js/main.js:259-285 | a wheel turn scrolls only to an adjacent section, and a second turn before the cooldown scrolls nowhere |
| SnapNav.EdgesStay | js/main.js:272-277 | at the last section a downward turn and at the first an upward one scroll nowhere and do not lock |
| SnapNav.SwipeUpThenLocked | js/main.js:293-321 | a swipe up from a middle section scrolls to the next one and locks further moves until unlocked |
| SnapNav.SetActiveDot | js/main.js:421-425 | exactly dot i is active, and none when i is not a dot |
| SnapNav.ActiveIndex | js/main.js:459 | the first active dot, or -1 exactly when none is active |
| SnapNav.ActiveIndexOfSet | js/main.js:421-459 | after dot i is set, the keyboard handler sees i as active, or -1 when i is not a dot |
| SnapNav.DotClick | js/main.js:428-438 | a click on a dot whose target exists makes it the only active dot; otherwise nothing changes |
| SnapNav.FirstStraddling | js/main.js:443-450 | the section found straddles the line a third down the viewport and none before it does |
| SnapNav.UpdateDotNavOnScroll | js/main.js:441-451 | the first straddling section's dot becomes the only active one; with none straddling, the dots stay as they were |
| SnapNav.KeyDown | js/main.js:458-474 | down keys move one section down only below the last section, up keys one up only above the first, both always prevent the default, other keys do nothing |
| SnapNav.KeysStayInRange | js/main.js:458-474 | with one dot per section the keys never leave the sections and always move by one |
| SnapNav.NoActiveDotGoesToFirst | js/main.js:459-462 | with no active dot a down key goes to the first section |
| DeviceDetector.StoredType | js/device-detector.js:17-27 | a stored type counts exactly while it is less than one hour old |
| DeviceDetector.ScreenWidth | js/device-detector.js:57 | the width is the first non-zero of the window, document and body widths |
| DeviceDetector.AgentIgnoresCase | js/device-detector.js:65 | the user-agent test ignores letter case |
| DeviceDetector.Decide | js/device-detector.js:68-74 | the result differs from the width decision only when touch and user agent agree and both disagree with width, and then it is theirs |
| DeviceDetector.DecideIsMajority | js/device-detector.js:68-74 | the decision is the majority of width, touch and user agent |
| DeviceDetector.TypeName | js/device-detector.js:77 | the type is `mobile` exactly for a mobile decision, else `desktop` |
| DeviceDetector.IsMobile | js/device-detector.js:49-80 | a non-empty stored type decides and the cache is unchanged; otherwise the signals decide and the result is stored with the current time |
| DeviceDetector.CacheAnswersWithinHour | js/device-detector.js:49-80 | a decision just stored is returned again by any call within the hour, whatever the signals |
| DeviceDetector.Hrefs | js/device-detector.js:117-122 | the device stylesheets are `css/<type>/<file>` for the three files in order |
| DeviceDetector.HrefsDistinguishTypes | js/device-detector.js:117-122 | no mobile stylesheet path equals a desktop one |
| DeviceDetector.LoadStart | js/device-detector.js:103-114 | the first part of loading decides the type, adds the common sheet, and sets neither the attribute nor the device links |
| DeviceDetector.LoadFinish | js/device-detector.js:116-127 | after the preload the device links, the attribute and the class of the type are set |
| DeviceDetector.HandleResizeEffects | js/device-detector.js:133-162 | an unchanged type changes only the cache; a change from a valid token replaces the class, the attribute and the links and stores the new type |
| DeviceDetector.ResizeBeforeLoadThrows | js/device-detector.js:133-151 | a resize while the attribute is absent throws after removing the device links; that run sets no attribute and no device stylesheets |
| DeviceDetector.ResizeDuringPreload | js/device-detector.js:103-151 | a resize right after the first part of loading throws |
| DeviceDetector.PreloadResizeIsHarmless | js/device-detector.js:103-151 | a resize within the hour after the first part of loading throws, re-stores the type being loaded, and the finished load then installs that type as if no resize had happened, apart from the cache's time stamp |
| DeviceDetector.ResizeIgnoresSignalsWithinHour | js/device-detector.js:133-138 | within an hour of a stored desktop decision the resize handler changes nothing, whatever the window now is |
| DeviceDetector.NarrowedWindowStaysDesktop | js/device-detector.js:133-138 | a touch phone whose window shrinks to 500 px one second after a desktop decision keeps the desktop type, although the signals say mobile |
| DeviceDetector.ResizeGuardedNeverThrows | js/device-detector.js:133-162 | the handler with only the invalid-token removal guarded always completes with the attribute, class and links of the type `isMobile` answers; where the handler as written completes, the two agree |
| DeviceDetector.ResizeFixedNeverThrows | js/device-detector.js:133-162 | the corrected handler always ends with the attribute, class, links and cache of the type the signals decide |
| DeviceDetector.ResizeFixedFollowsSignals | js/device-detector.js:133-162 | the corrected handler switches the narrowed touch phone to mobile even with a fresh desktop entry |
| MobileMenu.Open | js/mobile-menu.js:44-52 | opening sets the nav and overlay open, hides body scrolling, and sets `aria-hidden` false and `aria-expanded` true |
| MobileMenu.Close | js/mobile-menu.js:54-62 | closing clears both open flags, restores scrolling, and sets `aria-hidden` true and `aria-expanded` false |
| MobileMenu.OpenCloseIdempotent | js/mobile-menu.js:44-62 | open and close are idempotent and undo each other on consistent states |
| MobileMenu.Initial | js/mobile-menu.js:92-94 | at start the ARIA attributes say closed and the classes are the markup's |
| MobileMenu.InitialIsClosed | js/mobile-menu.js:92-94 | from closed markup the initial state is the closed menu |
| MobileMenu.NavLinkClick | js/mobile-menu.js:28-31 | a nav-link click closes the menu |
| MobileMenu.SwipeRules | js/mobile-menu.js:77-90 | a swipe opens exactly when it starts within 50 px of the edge and moves right more than 100 px, closes an open menu exactly when it moves left more than 100 px, otherwise does nothing, and never does both |
| MobileMenu.SwipeKeepsConsistent | js/mobile-menu.js:77-90 | swipes, link clicks and the buttons keep the classes, the scrolling and the ARIA attributes in agreement |
| MobileMenu.SwipesThatDoNothing | js/mobile-menu.js:77-90 | a left swipe on a closed menu and a right swipe from mid-screen change nothing |
| DesktopNav.ItemClick | js/desktop-nav.js:24-38 | a click on an item with a target makes it the only active item; without a target nothing changes |
| DesktopNav.BothClickHandlersAgree | js/desktop-nav.js:24-38 | this handler and the panel's handler give the same highlight in either order |
| DesktopNav.UpdateActiveMenuItem | js/desktop-nav.js:41-77 | it reports a match exactly when some item targets a section straddling the 100 px line; then only the last match in section-then-item order is active; the checked radios gain exactly the matches' radios; with no match nothing changes |
| DesktopNav.DefaultRadio | js/desktop-nav.js:88-93 | with no radio checked the first radio gets checked, if there is one; otherwise nothing changes |
| DesktopNav.Start | js/desktop-nav.js:7-93 | below 768 px nothing happens; otherwise, when the menu has a radio, some radio ends up checked, and validity is kept |

## Left out

- Every DOM operation is left out: element creation, cloning, `innerHTML`, listeners and styles. The model keeps only the state those operations decide.
- Measurements are inputs: bounding rectangles, window sizes, touch positions and wheel deltas.
- `setTimeout`, `debounce` and the 1000 ms scroll cooldown are not modelled as timers. The cooldown is a boolean lock with an explicit `Unlock`. The delayed label click and the delayed default click happen at once.
- `ResizeObserver` and `IntersectionObserver` scheduling are not modelled. Their callbacks are plain operations.
- `sessionStorage`, JSON parsing and the try/catch around them are not modelled. The cache is an `Option<Entry>`, and a corrupt entry reads as no entry.
- `Date.now()` is the `now` parameter.
- The preload promises are not modelled. Loading is split into `LoadStart` and `LoadFinish`, and a resize may run between them.
- Floating-point rounding is not modelled. Sizes, scales and angles are exact reals.
- Number-to-string conversion inside template strings is the parameter `fmt`.
- Lengths count UTF-16 code units in the source and characters here.
- `toLowerCase` is modelled on ASCII letters only. The user-agent test's case-insensitive match is likewise ASCII lower-casing.
- The HTML builders `create*Content` and `addCarouselModalCSS` are static markup with no logic.
- Also left out, as visual effects without decisions: the product modal, parallax, the scroll progress bar, the header shrink, the back-to-top button, `updateActiveNavLink`, `isInViewport`, `handleSectionVisibility` and the typewriter effect.
- The submit handler's success message and its delayed form reset are not modelled.
- The panel form's submit handler is not modelled. It only appends a message.
- Ring.Init and Ring.Resize: the distance is assumed to be a unitless number or a `px` length. For another unit, such as `20em`, the code assigns `translateZ(20empx)`. The browser rejects that assignment and keeps the old inline transform, which the code then stores as `originalTransform`. The model stores the string it built instead.
- Panel.Resolve: section ids are assumed not to be names of `Object.prototype` properties. `window.sectionContents` is a plain object, so a target such as `#constructor` would find an inherited value, and the click would throw at `cloneNode` after clearing the content and before opening the panel. The model finds nothing there and opens the panel.
- Zoom.Fit, Zoom.ZoomIn and Zoom.ZoomOut: `shown` is the scale the code assigns, not the scale the browser renders. After a NaN assignment the browser keeps the previous transform, which the model does not track.
- `DesktopNav.UpdateActiveMenuItem`: the radio of a match is found through the item's owning section (`closest('.content').parentElement`), taken from the menu structure rather than by walking the DOM.
- `Panel.ClickEffects`: the accordion's radios are modelled as a set of checked sections. Whether checking one unchecks the others depends on the radios' `name` attributes in the markup, which this model does not see.
- `DeviceDetector.IsMobile`: the user-agent test is the `agent` parameter, required to equal `MobileAgent` of the user agent, so that callers reason about the regular expression once.
- `SnapNav.KeyDown`: focusing `dotBtns[activeIndex ± 1]` can throw when there are fewer dots than sections. This is not modelled. The result names the section scrolled to.
- `MobileMenu.HandleSwipe`: touch positions are integers here, while `screenX` is a floating-point number in the browser.
- The start-up width checks (`innerWidth < 768`) of the panel and the desktop nav are modelled only in `DesktopNav.Start`. The panel model assumes a desktop start.

## Findings

| source | as written | input that shows it | evidently intended | confidence | as-written member | corrected member |
|---|---|---|---|---|---|---|
| js/device-detector.js:133-151 | `handleResize` reads the `data-device` attribute as `''` when it is absent and calls `classList.remove('')`, which throws a SyntaxError. The links are already removed and the new type already stored at that point. | A resize that fires while `loadStylesheets` awaits its preload, before the attribute is set. The handler ends in an uncaught SyntaxError. The page recovers only because the load finishes afterwards (`DeviceDetector.PreloadResizeIsHarmless`). If the preload never resolves, every later resize throws in the same way. | Remove the old class only when it is a valid token, and always set the new class, attribute and stylesheets | not executed | DeviceDetector.ResizeBeforeLoadThrows | DeviceDetector.ResizeGuardedNeverThrows |
| js/device-detector.js:133-138 | `handleResize` decides the new type with `isMobile`, which answers from the one-hour session cache written at load. | A touch phone, stored as `desktop` at time 0, narrows its window to 500 px at time 1000. The handler keeps `desktop` although width, touch and user agent all say mobile. | Decide the type afresh from the signals on resize and store it | not executed | DeviceDetector.NarrowedWindowStaysDesktop | DeviceDetector.ResizeFixedFollowsSignals |
