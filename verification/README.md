# Portfolio page behaviour, modelled in Dafny

This project models the client-side script of a static portfolio page
(`script.js`). The page has five independent behaviours. Four of them hold
logic worth stating, and all four are modelled here:

- **Theme switcher** (`theme.dfy`, module `ThemeCycler`). A single toggle
  button cycles the page through the themes `dark`, `light` and `rgb`.
  `applyTheme` swaps the body's `light-mode`/`rgb-mode` class, puts the
  theme's glyph on the button and saves the theme's name in local storage
  under `theme`. On load, a stored value that names a theme selects it;
  any other value is ignored.
- **Mobile menu** (`menu.dfy`, module `MenuToggle`). The hamburger toggles
  the `active` class on itself and on the nav list. Any nav link removes it
  from both.
- **Scroll spy** (`scroll_spy.dfy`, module `ScrollSpy`). There are two
  intersection-observer callbacks. The section callback marks with
  `active-link` the nav links whose `href` is `#` + the id of an
  intersecting section. The title callback adds or removes
  `highlight-active` on each reported section title.
- **Click to speak** (`speech.dfy`, module `Speech`). The click handler
  trims the clicked element's text. `speakText` does nothing for an empty
  text. Otherwise it cancels any speech in progress and speaks the text at
  rate 1 and pitch 1.

`page.dfy` (module `PageModel`) puts the four behaviours together. It
defines one immutable page record, an event type for the callbacks the
browser runs, and a fold over event sequences. It proves that running the
page is the same as running each behaviour on only the events addressed to
it. `options.dfy` holds the `Option` type used for absent attributes and
absent elements.

The DOM is replaced by plain values:

- class lists become booleans or sets;
- `localStorage` is a `map<string, string>`;
- the theme button's text is an `Option<string>`, which is `None` when the
  page has no such button;
- nav links are a sequence of `(href, active)` pairs;
- observer callbacks receive their entries as input;
- the speech engine is its queue of pending utterances (`cancel` empties
  it, `speak` appends to it).

## Model

| member | source | states |
|---|---|---|
| ThemeCycler.IndexOf | script.js:56 | `themes.indexOf(t)` is a valid index holding `t`, and it is the only such index |
| ThemeCycler.ParseTheme | script.js:55 | a stored string is recognised as theme `t` exactly when it is `t`'s name |
| ThemeCycler.ModeClass | script.js:40 | the body class added for a theme is its name followed by `-mode` |
| ThemeCycler.SavedTheme | script.js:54-55 | the load check accepts the stored value exactly when the `theme` key is present and holds the name of some theme, and then yields that theme |
| ThemeCycler.SwapModes | script.js:36-41 | after the remove and the conditional add, the body's mode classes are exactly those of the theme (none for dark), and every other class is as before |
| ThemeCycler.ApplyTheme | script.js:34-50 | the body's mode classes become exactly those of `t` (none for dark), so at most one of `light-mode`/`rgb-mode` remains; no other body class changes; storage maps `theme` to `t`'s name and keeps every other entry; an existing toggle shows `icons[t]`, and a missing one stays missing; the index is not touched |
| ThemeCycler.Load | script.js:52-58 | a recognised stored theme sets the index to that theme and applies it, leaving storage and the non-mode classes as they were, keeping the toggle (or its absence), and leaving the page consistent with its theme; any other stored value, or none, leaves the index at 0 and changes nothing else |
| ThemeCycler.Click | script.js:60-67 | with a toggle, a click keeps the index in `0..2`, moves to the successor theme in the cycle, leaves the page consistent, changes only the mode classes and the `theme` storage entry, and keeps the toggle; without a toggle no listener exists and nothing changes |
| ThemeCycler.ClicksKeepIndexInRange | script.js:63 | from an index in range, any number of clicks keeps the index within `themes` |
| ThemeCycler.ClicksKeepModesExclusive | script.js:34-66 | theme clicks never leave both `light-mode` and `rgb-mode` on the body |
| ThemeCycler.ClicksKeepConsistent | script.js:34-66 | once storage, body class and glyph agree with the theme index, every later theme click keeps them in agreement |
| ThemeCycler.ClicksAdvanceTheme | script.js:63-65 | `n` clicks move the theme `n` places around the cycle dark, light, rgb |
| ThemeCycler.AdvanceThreeIsIdentity | script.js:26 | going three places around the three-theme cycle returns to the same theme |
| ThemeCycler.ThreeClicksRestore | script.js:60-67 | three clicks on a page consistent with its theme restore the whole state: index, body classes, storage and glyph |
| ThemeCycler.StoredThemeRoundTrip | script.js:48-56 | after `applyTheme(t)`, the load-time check reads `t` back from storage |
| ThemeCycler.ReloadRestoresTheme | script.js:52-58 | loading a page consistent with its theme changes nothing |
| MenuToggle.Step | script.js:7-18 | a hamburger click flips both `active` flags; a link click clears both; equal flags stay equal |
| MenuToggle.RunKeepsSynced | script.js:7-18 | if the two flags start equal, they stay equal under any sequence of clicks |
| MenuToggle.RunParity | script.js:7-18 | after any clicks, each flag is on exactly when the number of hamburger clicks since the last link click is odd (when no link was clicked, this is relative to the flag's starting value) |
| MenuToggle.LinkClickCloses | script.js:13-18 | after a link click the menu is closed and the flags agree, whatever came before |
| MenuToggle.DoubleToggleRestores | script.js:7-10 | two hamburger clicks restore the menu |
| ScrollSpy.MarkLinks | script.js:85-90 | after one intersecting section `id`, exactly the links whose `href` is `#id` are active; the links' number and `href`s are unchanged |
| ScrollSpy.LastQualifying | script.js:79-84 | finds the position of the last entry of a batch that is intersecting and has a non-empty `id`: that entry qualifies and no later one does; or it reports that none qualifies |
| ScrollSpy.NavBatch | script.js:78-97 | the section callback over a batch never changes a link's `href` or the number of links, and a batch with no qualifying entry changes nothing; `NavBatchMarksLastSection` gives its full effect |
| ScrollSpy.NavBatchAppend | script.js:78-97 | splitting a batch of section entries in two gives the same links as handling it whole |
| ScrollSpy.NavBatchMarksLastSection | script.js:78-97 | after a batch with a qualifying entry, a link is active exactly when its `href` is `#` + the last such entry's `id`; a batch without one changes nothing; the `href`s are never changed |
| ScrollSpy.LastEntryFor | script.js:104-111 | finds the position of the last entry of a batch for a given title: that entry names the title and no later one does; or it reports that the batch has no entry for it |
| ScrollSpy.TitleBatch | script.js:104-111 | the title callback over a batch leaves every title without an entry in the batch as it was; `TitleBatchFollowsLastReport` gives its effect on the others |
| ScrollSpy.TitleBatchAppend | script.js:104-111 | splitting a batch of title entries in two gives the same highlights as handling it whole |
| ScrollSpy.TitleBatchFollowsLastReport | script.js:104-111 | a title with entries in the batch is highlighted exactly when its last entry is intersecting; a title without entries keeps its highlight |
| Speech.TrimStart | script.js:176 | the result is a suffix of the text, everything removed is whitespace, and the result does not start with whitespace |
| Speech.TrimEnd | script.js:176 | the result is a prefix of the text, everything removed is whitespace, and the result does not end with whitespace |
| Speech.Trim | script.js:176 | the trimmed text is no longer than the input, and it neither starts nor ends with whitespace |
| Speech.TrimRemovesOnlyTrimmableEnds | script.js:176 | the trimmed text sits in place inside the original, between a whitespace-only prefix and a whitespace-only suffix |
| Speech.TrimEmptyIffBlank | script.js:155-176 | a text trims to the empty string exactly when it is all whitespace |
| Speech.SpeakText | script.js:154-165 | empty text produces no calls; otherwise there are exactly two calls, `cancel` first, and the only utterance spoken is the text at rate 1 and pitch 1 |
| Speech.SpeakTextReplacesQueue | script.js:155-164 | whatever was queued, the calls for a non-empty text leave exactly that utterance queued; an empty text leaves the queue alone |
| Speech.ClickText | script.js:170-177 | a click on blank text leaves the speech queue as it was; any other click leaves exactly one pending utterance, the trimmed text |
| Speech.LastSpoken | script.js:170-177 | finds the position of the last click whose text is not blank: that text is not blank and every later one is; or it reports that every click was blank |
| Speech.ClickTextsAppend | script.js:167-182 | splitting a sequence of clicks in two gives the same speech queue as handling it whole |
| Speech.LatestRequestWins | script.js:154-165 | after any clicks, only the last non-blank click's trimmed text is pending; all-blank clicks leave the queue untouched |
| Speech.AtMostOnePending | script.js:156-164 | starting from at most one pending utterance, any clicks leave at most one |
| PageModel.Load | script.js:52-58 | at load the index is in range, only the theme state is touched and the toggle (or its absence) is kept; a recognised stored theme becomes the theme at the index, storage and the non-mode classes are kept and the page is consistent with it; otherwise only the index is set to 0 |
| PageModel.Step | script.js:1-184 | each callback changes only its own behaviour's state |
| PageModel.RunDecomposes | script.js:1-184 | running any event sequence gives the same result as running each behaviour alone on its own events: theme clicks, menu clicks, section entries, title entries and text clicks |
| PageModel.RunKeepsInvariant | script.js:1-184 | under any sequence of callbacks the theme index stays in range, at most one mode class is on the body, the menu flags agree, at most one utterance is pending, and the nav links keep their `href`s |
| PageModel.LoadedThemeStaysConsistent | script.js:52-67 | after a load that found a recognised stored theme, the page stays consistent with its theme through any callbacks |

## Left out

- Card tilt (script.js:120-149): this is floating-point arithmetic on the card's bounding box, it divides by zero for a zero-size card, and it produces CSS strings. The transition reset runs on a `setTimeout`. None of it is modelled.
- Intersection geometry (script.js:74-76, script.js:112): the thresholds and the root margin decide which entries the browser delivers. The model takes the entries as input.
- Text extraction and event routing (script.js:152, 167-175): `innerText || textContent` and `stopPropagation` belong to the browser. A click on a text element is modelled as an event that already carries the extracted text. When the click's target is a nav link or a button itself, it reaches both that element's own listener and its speech listener, and the model treats it as two events. When the target is a matched text element nested inside (a `span` in a link, a bar inside `.hamburger`), that element's speech listener runs first and its `stopPropagation()` at line 172 ends the bubbling there, so the outer element's own listeners never run. The model's `HamburgerClick`, `NavLinkClick` and `ThemeToggleClick` events stand for clicks that actually reach those listeners.
- The speech engine itself: the rate and pitch are recorded, but voice and timing are not modelled. The engine is assumed to exist. Without it, `window.speechSynthesis.cancel()` would throw, rather than do nothing quietly.
- DOM querying and `DOMContentLoaded` wiring (script.js:1-4, 70-72, 99-101, 114-116): this is plumbing. The model assumes that the hamburger and the nav list exist. Without the hamburger, line 7 throws and no later listener is registered. With the hamburger but without the nav list, the selector at line 4 finds no nav links, so no nav-link listener exists, and the nav observer's `navItems` (line 71) is empty too. Every other listener is registered. A hamburger click then toggles the hamburger at line 8 and throws at line 9, so the two flags drift apart. Neither failure is modelled.
- Storage failures (script.js:49, 54): `localStorage` is modelled as a map that always accepts reads and writes. When storage is blocked, the read at line 54 throws, the `DOMContentLoaded` handler stops there, and no theme-click, observer or speech listener is registered. `setItem` at line 49 can also throw when the quota is full. `ThemeCycler.ApplyTheme` writes storage unconditionally, and neither failure is modelled.
- server.py: a static file server that also opens a browser. It is I/O only.
- ThemeCycler.ApplyTheme is stated for the three recognised themes only. Every call site in the script passes one of them. For any other string, `icons[theme]` would be `undefined`.
