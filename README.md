# Portfolio page script, modelled in Dafny

This project models the decision rules of the interactive script of a personal portfolio
page (`script.js`). The script is a set of browser event handlers. Here the document is
taken as plain values: class flags are booleans (arrays of them for groups of elements),
the `data-theme` attribute and the stored `theme` preference are optional strings, and
scroll positions and element offsets are integers.

Modules, one per part of the script:

- `Theme` (theme.dfy): the theme chosen at load, the toggle button, and system colour-scheme changes. These are pure functions over a `Page` value.
- `Typing` (typing.dfy): the typing animation of the hero title. `Step` is the transition function of the state machine and the reference for the `Typewriter` class, which holds the script's module-level variables and whose `TypeRole` method updates them in place. Lemmas give the bounds, the cycle length per role, the delays, and a full rotation.
- `Disclosure` (disclosure.dfy): expand buttons with their target panels, the experience and project card groups (at most one card expanded), and the skill categories (at most one active, with pill labels shown).
- `Scroll` (scroll.dfy): the section highlight of the navigation links and the hide rule of the navigation bar.
- `Counter` (counter.dfy): the one-shot start of the skill-count animation and the count-up of one counter.
- `MobileNav` (mobile_nav.dfy): the menu button and the menu, which toggle together.
- `Text` (text.dfy): the JavaScript string operations these handlers use. `indexOf`, `replace` with a string pattern and a replacement without `$` (first occurrence only), `split` on one character, and `trim` with ECMAScript's white-space set. `Join` with a one-character separator is only the specification of `Split`; the handlers' own `join('')` builds the pill markup, which is not modelled.
- `Optional` (optional.dfy): the `Option` type for absent attributes and keys.

Browser inputs become parameters. The stored value, the media-query answer, the markup's
initial attribute, `scrollY`, the sections' `offsetTop`/`offsetHeight`, and the observer's
`isIntersecting` values are all passed in.

Two points of the theme code worth stating plainly:

- `Theme.Load` writes any truthy stored string into `data-theme` unchanged, not only "dark" or "light" (script.js:11-12).
- When neither a saved preference nor a dark system preference applies, the load code leaves the markup's attribute alone (script.js:13-15). So `Theme.Load` keeps that attribute, which is a parameter.

## Model

| member | source | states |
|---|---|---|
| `Theme.Load` | script.js:8-15 | a non-empty saved value becomes the theme; otherwise a dark system preference gives "dark"; otherwise the attribute stays as the markup had it; the stored value is only read |
| `Theme.Toggle` | script.js:17-22 | the new theme is always "dark" or "light"; it is "light" exactly when the old attribute was "dark"; the stored preference equals the displayed theme afterwards |
| `Theme.SystemChange` | script.js:30-34 | a system change applies only when no truthy preference is stored, then sets "dark"/"light" from the query; it never writes storage |
| `Theme.ToggleTwice` | script.js:17-22 | toggling twice from "dark" or "light" restores the theme, and the stored value then equals it |
| `Theme.ToggleTwiceFromOther` | script.js:18-19 | from an unset attribute or any other value, the first toggle yields "dark" and the second "light" |
| `Theme.SystemChangeAfterToggle` | script.js:17-34 | once the toggle has stored a preference, system changes have no effect |
| `Theme.SystemChangeAfterLoad` | script.js:8-34 | after load, a system change keeps a saved theme and otherwise alone decides the theme |
| `Typing.Step` | script.js:46-66 | each step keeps the bounds (role index < 4, characters within the role, fewer than all while typing, at least one while deleting); the text shown is the first `charIndex` characters of the role; the cursor deletes after a step exactly when typing has just completed the word or deleting has left characters; the delay is 2000/500/100/50 exactly when the word completes / empties / typing goes on / deleting goes on; the role advances mod 4 only when a word is emptied |
| `Typing.Run` | script.js:46-68 | any number of steps from a well-formed state stays well formed |
| `Typing.TypingPhase` | script.js:53-61 | typing from `j` characters for `k` steps shows `j + k` characters and turns to deleting exactly when the word is complete, at 100 ms a step plus 1900 for the completing one |
| `Typing.DeletingPhase` | script.js:49-52 | deleting from `j` for `k <= j` steps leaves `j - k` characters at 50 ms a step; emptying the word costs 500 and moves to the start of the next role |
| `Typing.Cycle` | script.js:46-66 | from the start of role `r`, exactly `2*|role|` steps reach the start of role `(r+1) % 4`; every earlier state is still on role `r`; the cycle takes `150*|role| + 2350` ms |
| `Typing.CyclesEnd` | script.js:62-65 | `m` cycles from role `r` end at the start of role `(r+m) % 4` |
| `Typing.CyclesTime` | script.js:49-65 | `m` cycles take the sum of their cycle delays |
| `Typing.FullRotation` | script.js:40-66 | the four roles take 136 steps and then the animation is back where it started |
| `Typing.FullRotationTime` | script.js:40-66 | those 136 steps take 19600 ms of delays |
| `Typing.Typewriter.constructor` | script.js:41-44 | the animation starts on role 0, no characters, typing, at speed 100 |
| `Typing.Typewriter.TypeRole` | script.js:46-66 | the in-place step updates `roleIndex`, `charIndex`, `isDeleting`, `typingSpeed` and the title to what `Step` gives, and keeps the bounds invariant |
| `Disclosure.ExclusiveToggle` | script.js:155-158 | after a click on element `i` every other element is cleared and `i` is the negation of its old flag, so at most one is set |
| `Disclosure.ExclusiveToggleTwice` | script.js:154-158 | clicking the same card twice restores a group where no other card was expanded |
| `Disclosure.ExclusiveToggleOther` | script.js:154-158 | clicking a second card expands it and collapses the first, whatever the group held |
| `Disclosure.ClickCard` | script.js:151-172 | the experience/project card handler leaves the group's flags equal to `ExclusiveToggle` of the old flags |
| `Disclosure.ClearAll` | script.js:183-185 | every flag of the group is cleared |
| `Disclosure.KeyActivateAsWritten` | script.js:231-239 | Enter/Space on a project card toggles it like a click; on an experience card it changes nothing, because the dispatched click never reaches the header's listener |
| `Disclosure.ExperienceKeyIgnored` | script.js:231-239 | for every group and card, the click on an experience header changes the flags, so the unchanged flags of the key press differ from it |
| `Disclosure.KeyActivate` | script.js:231-239 | the intended key handler leaves the group equal to `ExclusiveToggle` of the old flags on either kind of card, with at most one expanded |
| `Disclosure.SkillsPanel.constructor` | script.js:177 | the panel over the served markup: no category active and the display empty |
| `Disclosure.SkillsPanel.Click` | script.js:179-202 | from any classes the page holds, leaves at most one category active; `has-content` is set exactly when the clicked category became active; the pills are then that category's trimmed comma-separated skills, else the display is empty; clicking the active category clears everything |
| `Disclosure.ExpandButton.Click` | script.js:131-146 | `expanded` and the target's `open` both flip; the caption's first "More" becomes "Less" when expanded, and its first "Less" becomes "More" otherwise |
| `Disclosure.ExpandCollapse` | script.js:136-144 | expanding then collapsing a collapsed button restores its `expanded` flag and its panel's `open` flag, whatever the panel held, and restores a caption with "More" and no "Less" exactly |
| `Text.IndexOf` | script.js:141-143 | the result is -1 exactly when the pattern does not occur, and otherwise the first index where it occurs |
| `Text.ReplaceFirst` | script.js:141-143 | `replace` with a string pattern leaves the caption unchanged when the pattern is absent, and otherwise changes its length by the difference of the two lengths |
| `Text.ReplaceFirstSpec` | script.js:141-143 | `replace` with a string pattern returns the input when the pattern is absent, else it replaces only the first occurrence |
| `Text.LabelRoundTrip` | script.js:140-144 | a caption with "More" and no "Less" swapped More->Less and then Less->More is unchanged |
| `Text.Split` | script.js:192 | `split(',')` gives one more field than there are commas; no field holds a comma; joining the fields with commas gives the input back |
| `Text.SplitJoin` | script.js:192 | splitting the comma-join of comma-free fields gives the fields back |
| `Text.Trim` | script.js:196 | `trim()` gives an infix of its input with white space only around it and none at either of its ends |
| `Text.TrimIdempotent` | script.js:196 | trimming twice is trimming once |
| `Text.Pills` | script.js:192-196 | there is one pill label more than `data-skills` has commas, and no label holds a comma or starts or ends with white space |
| `Text.PillsAreTrimmedFields` | script.js:192-196 | each pill label is the trimmed field of the comma split at the same position |
| `Scroll.InView` | script.js:217-220 | a section whose height is not positive never makes its link active |
| `Scroll.AtMostOneInView` | script.js:212-225 | for sections laid out without overlap, at most one section's link is active at any scroll position |
| `Scroll.SomeInView` | script.js:212-225 | for sections laid out without gaps, every position within their span makes some link active |
| `Scroll.Highlight` | script.js:209-226 | each section's link is active exactly when `top-100 < scrollY <= top-100+height`; sections without a link change nothing |
| `Scroll.Navbar.constructor` | script.js:361 | `lastScrollY` starts at the position when the script runs; the bar starts shown, as served |
| `Scroll.Navbar.OnScroll` | script.js:364-371 | the bar is hidden exactly when the page moved down and is past 100, so never at 100 or above the top, never on an upward or zero scroll; `lastScrollY` is the latest position |
| `Counter.CounterStart.constructor` | script.js:329 | `countersAnimated` starts false |
| `Counter.CounterStart.OnEntries` | script.js:331-335 | the counters start at most once per page: only on an intersecting entry while the flag is clear; the flag stays set afterwards |
| `Counter.CountUp` | script.js:337-346 | a counter shows 1, 2, ..., target in order, nothing when the target is not a number or not positive |
| `MobileNav.NavMenu.Toggle` | script.js:80-83 | the button and the menu flip together, so they agree afterwards exactly when they agreed before |
| `MobileNav.NavMenu.LinkClick` | script.js:85-90 | a link click clears both classes |
| `MobileNav.ToggleTwice` | script.js:80-83 | two clicks on the button restore both classes |

## Left out

- DOM selection and listener wiring are browser plumbing. The keyboard handler's `card.click()` (script.js:231-239) is modelled only by where the dispatched click lands (`Disclosure.KeyActivateAsWritten`). Event bubbling in general is not modelled.
- The constructors of `Disclosure.SkillsPanel`, `Disclosure.ExpandButton`, `MobileNav.NavMenu` and `Scroll.Navbar` describe the page as served: they assume markup with no `active`, `expanded`, `has-content` or `nav-hidden` class set and the menu closed. The script itself sets none of this state. `Disclosure.SkillsPanel.Click` and `MobileNav.NavMenu.Toggle` do not depend on it.
- Missing elements are not modelled. A button without its `data-target` panel or its `span`, or a category without `data-skills`, throws a `TypeError` part-way through its handler, after some classes have already changed (script.js:137, 141, 192). In the model the panel, caption and skills always exist.
- `setTimeout` scheduling is not modelled: the initial 1000 ms delay of the typing animation, the chain of steps, the 300 ms `theme-toggled` animation class, the staggered reveal, and the counter's 100 ms increments. Delays are returned as integers (`Typing.Step`), and a chain of timed increments is a loop (`Counter.CountUp`).
- The scroll-reveal `IntersectionObserver` (script.js:107-126) is left out; it is timers and one class added per element. The counter's observer is modelled only as calls of `Counter.CounterStart.OnEntries`.
- `localStorage` and `matchMedia` are browser I/O. Their values are parameters of `Theme.Load` and `Theme.SystemChange`, and the stored value is a field of `Theme.Page`.
- Smooth-scroll offsets, hero parallax, ripple, card tilt and the pills' `animation-delay` use floating-point pixel and degree arithmetic, so they are left out.
- Particles and the counter's random start delay use `Math.random`, so they are left out.
- The cursor glow only writes styles and has no logic, so it is left out.
- The `innerHTML` markup of the pills is left out; only the list of pill labels is kept (`Text.Pills`).
- `Counter.CountUp`: `parseInt` of the count's text is not modelled. The count target is a parameter (None for NaN). The count element keeps its original text until the first increment.
- `Scroll.Highlight`: each section owns its own link. Two sections with the same id sharing one link (later section wins) are not modelled. Positions are whole pixels, though the browser's `scrollY` can be fractional.
- `Scroll.Navbar.OnScroll`: positions are whole pixels.
- `Typing.Typewriter.TypeRole` requires the bounds invariant that the constructor sets up and every step keeps. JavaScript's clamping `substring` outside those bounds is never reached, so it is not modelled.
- `Disclosure.ExpandButton.Click`: the target panel is a separate object. Two buttons sharing one `data-target` are allowed, and each click flips that shared panel.

## Findings

| source | as written | input that shows it | evidently intended | confidence | as-written member | corrected member |
|---|---|---|---|---|---|---|
| script.js:231-239 | Enter/Space calls `card.click()` on the `.exp-card` element, but the accordion listener is on its `.exp-header` child, so the dispatched click never reaches it | any experience card focused with Tab and Enter pressed: its `expanded` flag and those of the other cards stay as they were | the key acts like a click on the card's header, as on project cards | high, not executed | `Disclosure.KeyActivateAsWritten`, `Disclosure.ExperienceKeyIgnored` | `Disclosure.KeyActivate` |
