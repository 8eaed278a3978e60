# Portfolio page behaviour, modelled in Dafny

This project models the client-side script of a personal portfolio site
(`js/main.js`). The script switches between a light and a dark theme, runs the
navigation bar and its mobile menu, highlights the navigation link of the
section in view, and fades content in. The DOM is replaced by an immutable
`Page` record holding:

- the `data-theme` attribute;
- local storage, as a map;
- the operating-system colour-scheme preference;
- the navbar `scrolled` class;
- the two `active` classes of the mobile menu;
- the body scroll lock;
- the `.nav-link` list;
- the `visible` flags of the `.fade-in` elements.

Each event handler is a pure transition on that record. Geometry (scroll
position, offsets, heights) is passed to the handlers as integer arguments.

Modules:

- `Wrappers`: `Option`, standing for JavaScript's `null`.
- `PageState`: the `Page` record and the invariants shared by several components.
- `Theme`: `setTheme`, `toggleTheme`, `initTheme` and the colour-scheme `change` listener.
- `Navigation`: the scroll class, the mobile menu, the Escape key, the outside click and anchor clicks.
- `ActiveLink`: `updateActiveNavLink`, as a loop over the sections that is proved equal to a "last containing section wins" reference definition.
- `Reveal`: the intersection-observer callback and the staggered hero reveal.
- `Bootstrap`: the synchronous part of `init`, and properties that link components together.

## Behaviour worth knowing

- `initTheme` applies the system theme through `setTheme`, so the system theme is
  also written to storage (js/main.js:50, js/main.js:33-36). From the first load
  on, a preference is always stored. The colour-scheme listener is meant to
  switch only "if user hasn't manually set a preference" (js/main.js:56), but
  after init it never switches, even for a visitor who never chose a theme
  (`Theme.OsChangeAfterInitIsInert`, `Theme.ReloadKeepsTheme`).
- `updateActiveNavLink` re-clears and re-marks the links for every section that
  contains the probe. So when sections overlap, the last containing section in
  document order wins (`ActiveLink.LaterCoveringWins`).
- The navbar counts as scrolled only when `scrollY > 50`, so an offset of
  exactly 50 is not scrolled.

## Model

| member | source | states |
|---|---|---|
| Theme.SystemTheme | js/main.js:25-27 | the system theme is `dark` exactly when the dark colour-scheme query matches, and `light` otherwise |
| Theme.SavedTheme | js/main.js:29-31 | the saved preference is absent exactly when storage has no `portfolio-theme` key, and otherwise is that key's value |
| Theme.SetTheme | js/main.js:33-36 | afterwards the attribute and the stored preference are both the given theme; other storage keys and the rest of the page are untouched |
| Theme.ToggleTheme | js/main.js:38-42 | the new theme is `light` exactly when the attribute was `dark`, and `dark` otherwise (absent or unrecognised attribute included); attribute and storage agree afterwards |
| Theme.ToggleTwice | js/main.js:38-42 | two toggles restore a `light` or `dark` attribute, and restore the whole page when storage agreed with the attribute |
| Theme.ToggleTwiceFromOther | js/main.js:38-42 | two toggles from an absent or unrecognised attribute end at `light` |
| Theme.ToggleIgnoresStorage | js/main.js:38-42 | the toggle's outcome depends only on the attribute, not on what storage holds |
| Theme.InitTheme | js/main.js:44-52 | a truthy saved preference is applied; otherwise the system theme is applied; either way a non-empty preference is stored and agrees with the attribute |
| Theme.OsThemeChange | js/main.js:54-60 | a colour-scheme change re-themes the page only while no truthy preference is stored; otherwise only the recorded system preference changes |
| Theme.OsChangeAfterInitIsInert | js/main.js:44-60 | after `initTheme`, no colour-scheme change alters the theme or storage |
| Theme.InitPersistsSystemTheme | js/main.js:44-52 | with nothing saved and a dark system preference, loading the page applies and stores `dark` |
| Theme.ReloadKeepsTheme | js/main.js:44-52 | a second page load applies the first load's theme whatever the system preference has become |
| Navigation.HandleNavScroll | js/main.js:65-71 | `scrolled` holds exactly when the scroll offset exceeds 50; nothing else changes |
| Navigation.NavScrollIdempotent | js/main.js:65-71 | the scroll handler is idempotent and its result depends only on the scroll offset |
| Navigation.ToggleMobileNav | js/main.js:76-80 | both `active` classes flip, and the body is scroll-locked exactly when the menu ends up open |
| Navigation.CloseMobileNav | js/main.js:82-86 | both `active` classes are cleared and the scroll lock released, from any state |
| Navigation.CloseIdempotent | js/main.js:82-86 | closing twice is the same as closing once |
| Navigation.ToggleTwiceRestores | js/main.js:76-80 | two toggles give back the same page whenever the scroll lock matches the menu panel's state |
| Navigation.HandleKeyboard | js/main.js:178-183 | Escape on an open menu clears both `active` classes and the scroll lock and touches nothing else; any other key, or Escape with the menu closed, changes nothing |
| Navigation.OutsideClick | js/main.js:220-226 | a click outside both the menu and the toggle closes an open menu; every other click changes nothing |
| Navigation.HandleNavClick | js/main.js:91-114 | a non-`#` href is left to the browser and changes nothing; a `#id` href is cancelled; an existing target closes the menu and scrolls to its offset minus the navbar height; a missing target changes nothing |
| Navigation.AnchorTarget | js/main.js:95-111 | for `#id` with an existing element, the scroll target is its offset minus the navbar height and the menu is closed |
| Navigation.AnchorMissing | js/main.js:95-100 | for `#id` naming no element, the click is cancelled and there is no scroll and no change to the menu |
| Navigation.AnchorExamples | js/main.js:91-114 | `#contact` at 1000 with an 80-high navbar scrolls to 920; a target above the navbar height gives a negative offset; external links are not intercepted |
| Navigation.HandlersKeepMenuSynced | js/main.js:65-226 | every navigation handler keeps the two `active` classes and the scroll lock in step |
| Navigation.ScrollLockFollowsMenu | js/main.js:76-86 | opening the menu locks scrolling, and closing it by toggle, by Escape or by an outside click releases the lock |
| ActiveLink.Highlight | js/main.js:154-159 | for one containing section, every link keeps its href and is active exactly when its href is `#` followed by the section id |
| ActiveLink.LastCovering | js/main.js:148-153 | no winner exactly when no section's span `[top, top+height)` contains the probe; otherwise the winner is a containing section that no later section follows as container |
| ActiveLink.HighlightOverrides | js/main.js:148-160 | re-marking for a later section wipes out the marks of an earlier one completely |
| ActiveLink.UpdateActiveNavLink | js/main.js:144-162 | the probe is scroll offset + navbar height + 100; with no containing section the links are unchanged; otherwise a link is active exactly when it points at the last containing section; hrefs never change |
| ActiveLink.LastCoveringIsUnique | js/main.js:148-153 | a containing section with no containing section after it is the winner |
| ActiveLink.SingleActiveLink | js/main.js:144-162 | with distinct hrefs: when a section contains the probe, at most one link is active afterwards, and exactly the one pointing at the winner if there is such a link; when none does, an at-most-one state is kept |
| ActiveLink.LaterCoveringWins | js/main.js:148-160 | when two sections both contain the probe, there is a winner, and it is the later of the two or a section after it, never the earlier one |
| ActiveLink.LastMatchWins | js/main.js:148-160 | worked example: with `about` [0, 200) and `work` [100, 300) both containing probe 150, only the `#work` link ends up active |
| Reveal.Show | js/main.js:129 | adding `visible` sets one flag and changes no other |
| Reveal.ObserverCallback | js/main.js:126-132 | an element is visible after the callback exactly when it was before or an intersecting entry names it; no flag is cleared |
| Reveal.HeroDelaysOrdered | js/main.js:237-243 | hero element `i` is revealed after 100 + 100*i ms: the first after 100 ms, each next one 100 ms later, in document order |
| Reveal.ShowFirst | js/main.js:238-242 | after the first `n` hero timers have fired, exactly the first `n` hero elements have been added to the visible set, and no flag is cleared |
| Reveal.FiredBy | js/main.js:237-243 | the number of hero timers fired by time `t` counts exactly the elements whose delay has passed |
| Reveal.HeroVisibleAt | js/main.js:236-243 | at time `t` every hero element whose delay has passed is visible, nothing else became visible, and nothing visible was hidden |
| Reveal.HeroRevealMonotone | js/main.js:236-243 | the visible set at a later time contains the one at an earlier time |
| Bootstrap.Boot | js/main.js:188-233 | after start-up the theme is applied and persisted, `scrolled` reflects the scroll offset, and the links show the section in view |
| Bootstrap.OsChangeAfterBootIsInert | js/main.js:55-60 | after start-up, colour-scheme changes never re-theme the page |
| Bootstrap.AnchorClickHighlightsItsLink | js/main.js:104-157 | with non-overlapping sections and a target at least the navbar height down the page, landing where a `#id` click scrolls makes the `#id` link active, provided the section is taller than 100 |

## Left out

- Storage and media-query access: `localStorage` and `matchMedia` become the `storage` map and the `systemDark` flag. Storage is assumed always available, as the code assumes.
- Event machinery: listener registration, passive listeners, the `DOMContentLoaded`/`readyState` choice and event bubbling order are left out. Each handler is a separate transition.
- The back-to-top handler (js/main.js:167-173): it only cancels the click and scrolls to offset 0.
- The smooth-scroll animation: `HandleNavClick` returns the target offset rather than moving the viewport.
- Intersection geometry: the observer's root margin (-50px) and threshold (0.1) decide when an entry is intersecting. The model takes `isIntersecting` as an input.
- Fractional positions: `scrollY` and layout offsets are modelled as integers. There is no floating-point pixel behaviour.
- Missing page elements: the model assumes `#navbar`, `#navToggle` and `#navMenu` all exist, so that no handler throws part-way through.
  - Without `#navToggle`, `closeMobileNav` throws at js/main.js:83. A `#id` click on an existing target is then cancelled but never scrolls, although the code otherwise guards the toggle (js/main.js:202).
  - Without `#navbar`, `handleNavScroll` throws at js/main.js:67/69 inside `init`. `updateActiveNavLink` and the hero timers then never run.
  - Without `#navMenu`, `toggleMobileNav` flips the toggle's class and then throws at js/main.js:78. The two `active` classes are left out of step.
- A `.nav-link` without an `href` attribute: there `href.startsWith` throws, and the model assumes every link has one.
- AnchorClickHighlightsItsLink: takes the requested scroll offset as the landing position. Browsers clamp `scrollTo` to the scrollable range. The lemma therefore requires a non-negative offset, which rules out the clamp at the top. The clamp at the bottom is not modelled: a target too near the end of the page lands higher than requested.
- HeroVisibleAt: the model assumes each timer fires exactly when its delay expires. Browsers promise only "no earlier", so the model gives the delays and the firing order, not the real firing times.
