# Landing-page script: the logic under the DOM glue

The landing page's script (`js/script.js`) mostly wires browser events to
CSS-class changes. This project models the parts of it that are plain logic,
once the DOM, the timers and `localStorage` become values:

- `validateEmail`, the test against `^[^\s@]+@[^\s@]+\.[^\s@]+$`
  (`email.dfy`). `MatchesPattern` is the pattern's meaning: a split into
  local part, `@`, host, `.`, top-level part. Each of the three parts is
  non-empty and free of whitespace and `@`. `ValidateEmail` is a scanning
  checker proved to accept exactly those strings. `PatternIffShape` restates
  the pattern as the checks the scanner makes: no whitespace, one `@` that is
  not first, and a dot after it that is neither directly after the `@` nor
  the last character. Whitespace is the exact ECMAScript `\s` set
  (`chars.dfy`).
- The mobile menu (`menu.dfy`). Its state is the `active` class of
  `menuToggle` and of `navMobile`. Its events are a toggle click, a
  `.nav-link` click, a document click with an "inside the header" flag, and a
  keydown with its `key` string.
- The threshold rules (`layout.dfy`). The header has `scrolled` when
  `scrollY > 20`. The desktop navigation is `active` when
  `innerWidth > 1024`. Class lists are sets of names (`classlist.dfy`).
- `debounce` (`debounce.dfy`). A time-ordered trace of calls is replayed
  against the closure's single timer slot. The result is proved equal to a
  timer-free definition: a call runs the function, with its own arguments and
  at its own time plus the delay, exactly when no later call arrives at or
  before that time.
- Dark-mode persistence (`darkmode.dfy`, `storage.dfy`). The store is a map
  from string keys to string values. The change listener writes the flag, and
  start-up reads it back into the body class and the checkbox.
- The `cta_click` record (`analytics.dfy`): `cta_type` and the trimmed
  `cta_text`.

Modelling choices:

- Time is whole milliseconds. `setTimeout` converts `wait` to a signed
  32-bit `long` (wrapping modulo 2^32) and then treats a negative result as
  zero. So a `wait` in [-2^31, 0) or in [2^31, 2^32) gives an immediate
  timer. Outside [-2^31, 2^32) the wrap can give a positive delay again:
  2^32 + 100 ms and -2^32 + 100 ms both wait 100 ms (`Debounce.Delay`).
- The model assumes that calls made in the same millisecond run in one task,
  before any timer can fire. So a call that arrives at exactly the millisecond
  a pending timer is due still cancels it, and with a zero delay, calls at one
  instant coalesce into one run.
- Scroll offsets and widths are whole CSS pixels.
- Strings are sequences of Unicode scalar values rather than UTF-16 code
  units. Every `\s` character and `@` is a single code unit, so the pattern's
  verdict does not change.
- The code is followed at the boundaries: a width of exactly 1024 px hides
  the desktop navigation, and an offset of exactly 20 px is not `scrolled`.
- The middle part of the pattern may itself contain dots, so `a@.b.c` is
  accepted while `a@.b` is not (`Email.AcceptedExamples`,
  `Email.RejectedExamples`).

## Model

| member | source | states |
|---|---|---|
| `Email.ValidateEmail` | js/script.js:330-333 | the checker returns true exactly when the whole string matches the pattern, i.e. splits as local@host.tld with three non-empty parts free of whitespace and `@` |
| `Email.PatternIffShape` | js/script.js:331 | a string matches exactly when it has no whitespace, a single `@` that is not its first character, and a `.` after the `@` that is neither directly after it nor the last character |
| `Email.AcceptedHasOneAtNoSpace` | js/script.js:331 | every accepted string contains exactly one `@` and no whitespace |
| `Email.RejectedExamples` | js/script.js:331 | `a@.b`, `a@b.`, `a@b`, `@b.c`, `a@b@c.d` and `a b@c.d` are rejected |
| `Email.AcceptedExamples` | js/script.js:331 | `a@b.c` is accepted, and so is `a@.b.c`, because the host part may hold dots |
| `ClassList.SetClass` | js/script.js:19-23 | `classList.add`/`remove`: afterwards the class is present exactly when it was added, and every other class is as before |
| `Menu.Step` | js/script.js:27-46 | a toggle click flips both `active` classes; a nav-link click, an outside click or Escape (the keydown listener at lines 417-423) clear both; every other event changes nothing |
| `Menu.ToggleTwiceRestores` | js/script.js:27-30 | two toggle clicks give back the original menu state |
| `Menu.CloseIdempotent` | js/script.js:33-46 | a nav-link click, an outside click or Escape leaves both flags false, and repeating it changes nothing |
| `Menu.InsideClickKeepsState` | js/script.js:41-46 | a click inside the header leaves the menu unchanged |
| `Menu.OtherKeyKeepsState` | js/script.js:417-423 | any key other than `Escape` leaves the menu unchanged |
| `Menu.StepPreservesSync` | js/script.js:27-46 | if the two `active` classes agree before an event, they agree after it |
| `Menu.RunPreservesSync` | js/script.js:27-46 | starting from agreeing classes, the classes agree after any sequence of events |
| `Menu.RunWithoutClose` | js/script.js:27-30 | with no closing event, the state after a sequence is the start state flipped once per odd number of toggle clicks |
| `Menu.RunAfterLastClose` | js/script.js:33-46 | after the last closing event, the menu is fully open exactly when an odd number of toggle clicks followed it, whatever came before |
| `Layout.OnScroll` | js/script.js:18-24 | after a scroll event the header has `scrolled` exactly when `scrollY > 20`; its other classes are untouched |
| `Layout.HandleResize` | js/script.js:49-58 | after a resize (and at load) the desktop navigation is `active` exactly when `innerWidth > 1024`; its other classes are untouched |
| `Layout.Boundaries` | js/script.js:18-55 | offset 20 is not scrolled but 21 is; width 1024 hides the desktop navigation but 1025 shows it |
| `Layout.ScrollForgetsHistory` | js/script.js:18-24 | only the latest scroll offset decides the header's `scrolled` class |
| `Layout.ResizeForgetsHistory` | js/script.js:49-55 | only the latest width decides the desktop navigation's `active` class |
| `Layout.Monotone` | js/script.js:18-55 | scrolling further never removes `scrolled`, and a wider window never hides the desktop navigation |
| `Debounce.ToInt32` | js/script.js:272 | the delay argument is reduced to a signed 32-bit value congruent to `wait` modulo 2^32 |
| `Debounce.Delay` | js/script.js:272 | the timer's delay lies in 0 .. 2^31-1; it equals `wait` for `0 <= wait < 2^31`, is 0 for negative 32-bit `wait`, and for any `wait` it is `wait` modulo 2^32 when that is below 2^31 and 0 otherwise |
| `Debounce.DelayExamples` | js/script.js:272 | delays of -5, 2^31 and 2^32 - 1 ms fire at once; 100, 2^32 + 100 and -2^32 + 100 ms all wait 100 ms; 3 * 2^31 - 1 ms waits 2^31 - 1 ms |
| `Chars.IsSpace` | js/script.js:331 | the characters of the JavaScript `\s` class (ECMAScript WhiteSpace and LineTerminator), which `trim()` at line 244 also strips |
| `Email.MatchesPattern` | js/script.js:331 | the anchored pattern's meaning: the string is local `@` host `.` tld with three non-empty parts free of `\s` and `@` |
| `Debounce.Replay` | js/script.js:266-273 | the single timer slot: each call clears a pending timer not yet due and schedules its own run after the delay; a timer due before the next call has fired, and one left pending at the end fires |
| `Debounce.Debounced` | js/script.js:264-274 | all runs caused by a trace of calls; its meaning is fixed by `Debounce.DebouncedRunsBurstEnds` |
| `Debounce.DebouncedRunsBurstEnds` | js/script.js:264-274 | for a time-ordered trace, the runs of the wrapped function are the calls whose every later call arrives after their timer is due, in order, each at its time plus the delay with its own arguments |
| `Debounce.BurstEndsMembers` | js/script.js:264-274 | every call that ends its burst produces a run, and every run comes from such a call |
| `Debounce.DebouncedProperties` | js/script.js:264-274 | runs are more than the delay apart; the last call of a non-empty trace always runs, with its own arguments |
| `Debounce.BurstYieldsOneRun` | js/script.js:266-273 | a burst (consecutive calls each no later than the previous call's due time, followed by a gap longer than the delay or the end of the trace) yields exactly one run, its last call's, before the runs of the calls after it |
| `Debounce.ZeroDelayCoalesces` | js/script.js:271-272 | with a zero delay, two calls at the same instant run the function once, with the second call's arguments |
| `Debounce.LastOfBurstByNext` | js/script.js:266-273 | in a time-ordered trace, a call ends its burst exactly when the next call, if any, comes after its timer is due |
| `Storage.GetItem` | js/script.js:392 | reading a key yields a value exactly when the key is stored |
| `Storage.SetItem` | js/script.js:402-405 | writing a key adds it to the store's keys and no others |
| `Storage.GetAfterSet` | js/script.js:392-405 | a value written is read back, and other keys keep their values |
| `DarkMode.InitDarkMode` | js/script.js:387-397 | without the checkbox nothing changes; with it, a stored `"true"` adds `dark-mode` and checks the box, and anything else leaves the page alone |
| `DarkMode.OnToggleChange` | js/script.js:399-407 | after the change listener, `dark-mode` is on exactly when the box is checked, the stored flag reads `"true"` exactly when checked, and nothing else changes |
| `DarkMode.PreferenceRoundTrip` | js/script.js:392-406 | after switching the box and reloading, start-up shows `dark-mode` and checks the box exactly when it was switched on |
| `DarkMode.InitIdempotent` | js/script.js:392-397 | running start-up twice is the same as running it once |
| `Analytics.ClassifyCta` | js/script.js:245 | a tracked element is a header CTA exactly when it has `cta-button`, and a body CTA otherwise, which then has `btn-primary` |
| `Analytics.TrackCtaClick` | js/script.js:241-247 | the `cta_click` record has `cta_type` `"header"` exactly when the element has `cta-button` and `"body"` otherwise, and its text is `Trim` of the element's text: a slice with only whitespace outside it and none at its ends |
| `Analytics.Trim` | js/script.js:244 | `trim()` returns a slice of the text with only whitespace outside it and no whitespace at either end |
| `Analytics.TrimIdempotent` | js/script.js:244 | trimming a trimmed text changes nothing |
| `Analytics.TrimEmptyIffBlank` | js/script.js:244 | trimming yields the empty string exactly when the text is all whitespace |

## Left out

- Smooth scrolling, `scrollToElement` and the ripple effect: pixel
  arithmetic over layout values and the browser scroll API
  (js/script.js:64-83, 119-151, 290-301).
- The IntersectionObserver animations and lazy image loading: browser
  callbacks that set a style, or copy `data-src` into `src`, add the
  `loaded` class to the image and stop observing it
  (js/script.js:89-113, 210-225).
- Card and hover effects and console logging: pure side effects
  (js/script.js:157-204, 231-238).
- The `DOMContentLoaded` start-up listener: it logs a message and adds the
  `loaded` class to the body once, a single unconditional class change
  (js/script.js:363-371).
- The `nav_click` record: it logs the link text and `href` unchanged
  (js/script.js:251-258).
- `copyToClipboard`: the promise-based clipboard API and its error path.
- `handleFormSubmit`: it depends on `FormData` and form submission.
- `addClassWithDelay` and `removeClassWithDelay`: thin `setTimeout` wrappers.
- Real timers and `localStorage` I/O: timers are integer timestamps in a
  call trace, and storage is a key/value map.
- Event bubbling. A click on the toggle or on a nav link also reaches the
  document listener. The model treats each listener's run as its own event,
  so a caller composes them in the order the browser delivers them.
- `Menu.Step`: the "inside the header" test (`closest('.header')`) is an
  input flag; the DOM ancestry query behind it is not modelled.
- `DarkMode.InitDarkMode`: the page never calls it (the call at line 411 is
  commented out). It is modelled as written, and the round trip assumes a
  fresh load whose markup has neither `dark-mode` nor a checked box.
- `Debounce.DebouncedRunsBurstEnds`: `func` is an opaque callee. The model
  records when it runs and with which arguments, not what it does. The
  trace is finite, so every timer still pending at its end fires.
- `Debounce.Replay`: timers fire exactly at their due time. Browsers only
  promise "no earlier": a busy main thread, throttling of background tabs and
  the 4 ms clamp on deeply nested timers can all make a run late. Two events
  in one millisecond can also be two separate tasks, and a zero-delay timer
  can fire between them; the model assumes one task per millisecond.
- `Layout.OnScroll`: fractional `scrollY` values on high-density screens are
  not modelled; offsets are whole pixels.
