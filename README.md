# Portfolio page behaviour, modelled in Dafny

This project models the client-side logic of a single-page portfolio site
(`script.js`). It covers four things:

- **Language switching** (module `I18n`, `i18n.dfy`). The page keeps a global
  `currentLang`. It starts from the `lang` value in local storage, or `"es"`
  when nothing is stored. A click on the switcher flips it between `"es"` and
  `"en"`, stores the new value, rewrites every tagged element's text and
  placeholder from the translation table, and updates the flag and code on the
  button. The translation table is a parameter (`map<string, map<string,
  string>>`). The page state is the class `LanguageSwitcher`.
- **Contact-form validation** (module `ContactForm`, `contact_form.dfy`).
  `validateForm` makes four checks in order: trimmed name length, the email
  pattern `^[^\s@]+@[^\s@]+\.[^\s@]+$`, trimmed subject length, and trimmed
  message length. The first failing check decides the error. The email
  regular expression is a hand-written test. It is proved equal to a predicate
  that spells out the pattern's language.
- **Scroll-triggered reveals** (module `Reveal`, `reveal.dfy`). One class
  tracks the one-shot `data-aos` elements. Another tracks the re-triggering
  decorative planets. Each holds the observed elements, the revealed elements
  and a multiset of pending timer events. The observer callback and the timer
  callback are methods.
- **Navigation state on scroll** (module `Navigation`, `navigation.dfy`).
  `updateActiveLink` marks the link of the section under the scroll position.
  `updateNavbar` toggles the bar's `scrolled` style. The section nodes are fixed, but
  their extents are read on every scroll, so each scroll event takes the
  layout of that moment as an input.

Two facts about the code that the model makes explicit:

- `currentLang` takes any non-empty stored string as it is and never checks
  that it is a supported language (script.js:829, `InitialLang`). An unknown
  stored language then leaves every text alone, sets the document language
  to that string, and shows the English indicator.
- Two toggles restore the displayed text only when the "es" and "en" entries
  of the table cover each other (`DoubleToggleRestoresText`).
  `DoubleToggleNeedsCompleteTable` gives a counterexample: a key translated
  only in English keeps its English text after switching back.

## Model

| member | source | states |
|---|---|---|
| `I18n.Applied` | script.js:860-881 | After `applyLanguage`, every element keeps its keys; its text becomes `table[lang][key]` when that entry exists and is non-empty and stays unchanged otherwise; the placeholder follows the same rule on its own key |
| `I18n.PassesAreSeparate` | script.js:863-877 | The text pass never changes a placeholder, and the placeholder pass never changes a text |
| `I18n.AppliedIdempotent` | script.js:860-881 | Applying the same language twice gives the same elements as applying it once |
| `I18n.LaterLanguageWins` | script.js:863-877 | If every key translated in language A is also translated in language B, applying B after A gives the same elements as applying B alone |
| `I18n.Toggle` | script.js:843 | The new language is always "es" or "en", and it is "en" exactly when the old one was "es" |
| `I18n.ToggleTwice` | script.js:843 | Two toggles restore "es" or "en"; from any other value they lead to "en" |
| `I18n.InitialLang` | script.js:829 | The initial language is the stored value when one is present and non-empty, and "es" otherwise; it is never empty |
| `I18n.ReloadAfterClick` | script.js:829-844 | The value a click stores is the language the next page load starts in |
| `I18n.LangButton` | script.js:850-858 | The indicator shows "ES" and the Spanish flag exactly when the language is "es", and "EN" with the British flag otherwise |
| `I18n.DoubleToggleRestoresText` | script.js:842-847 | With a table whose "es" and "en" entries cover each other, rendering in "es" or "en" and then clicking twice returns every element to what it showed |
| `I18n.DoubleToggleNeedsCompleteTable` | script.js:863-868 | A key translated only in English keeps its English text after switching back to Spanish |
| `I18n.SampleSwitchToEnglish` | script.js:620-827 | On a sample of the page's table, switching to English rewrites a navigation text and a form placeholder with the English entries |
| `I18n.LanguageSwitcher.Load` | script.js:829 | On page load, `currentLang` is `InitialLang` of the stored value, and the markup, document language and indicator are as authored |
| `I18n.LanguageSwitcher.ApplyLanguage` | script.js:860-881 | The two in-place passes leave the elements equal to `Applied` of the old elements; the document language is set to `lang`, even an unknown one; nothing else changes |
| `I18n.LanguageSwitcher.Init` | script.js:831-840 | Without the switcher button nothing changes; with it, the current language is rendered and the listener is registered; the indicator and document language show the current language, and every element whose key has a non-empty entry in it shows that entry while the others keep their text |
| `I18n.LanguageSwitcher.Click` | script.js:842-847 | A click toggles `currentLang`, stores the new value, renders it and updates the indicator; afterwards the indicator and document language show the new language, and every element whose key has a non-empty entry in the new language shows that entry while the others keep their text |
| `ContactForm.JsSpaceCharacters` | script.js:310-312 | The white space of `trim` and `\s` (the predicate `IsJsSpace`): space, tab, line feed and carriage return are white space, no printable ASCII character is, and nothing above U+FEFF is |
| `ContactForm.TrimStart` | script.js:312 | The result is the suffix of the input left after removing leading JavaScript white space; it does not start with white space |
| `ContactForm.TrimEnd` | script.js:312 | The result is the prefix of the input left after removing trailing white space; it does not end with white space |
| `ContactForm.Trim` | script.js:312 | The trimmed string neither starts nor ends with white space, and it is empty exactly when the input is all white space |
| `ContactForm.TrimStripsPadding` | script.js:322 | Trimming white space padding around a core that neither starts nor ends with white space gives back exactly the core |
| `ContactForm.Utf16Length` | script.js:312 | `.length` counts UTF-16 code units: at least one and at most two per character, and exactly one per character when no character lies outside the Basic Multilingual Plane |
| `ContactForm.Utf16LengthAdds` | script.js:312-327 | The `.length` of two strings joined is the sum of their lengths |
| `ContactForm.Utf16LengthOne` | script.js:312-327 | A single character has `.length` 2 outside the Basic Multilingual Plane and 1 inside it; with `Utf16LengthAdds` this fixes the count of every string |
| `ContactForm.FirstIndexOf` | script.js:310 | The result is the first position of the character, or none exactly when it does not occur |
| `ContactForm.IsValidEmail` | script.js:310-317 | `emailRegex.test` accepts a string exactly when it matches `^[^\s@]+@[^\s@]+\.[^\s@]+$`: a non-empty local part, one `@`, a non-empty run, a `.` and a non-empty run, none holding white space or `@` |
| `ContactForm.FirstSplitMatchesPattern` | script.js:310 | A string matches the pattern exactly when it has an `@` and the split at its first `@` is accepted, so one split decides the match |
| `ContactForm.EmailTestSound` | script.js:317 | When the split at the first `@` is accepted, the string matches the pattern |
| `ContactForm.EmailTestComplete` | script.js:317 | Every match of the pattern has its `@` first, and the split there is accepted |
| `ContactForm.ErrorNotice` | script.js:313-328 | Every failing check has a non-empty error notice |
| `ContactForm.ErrorNoticesDistinct` | script.js:313-328 | No two failing checks share a notice, so the notice tells which check failed |
| `ContactForm.ValidateForm` | script.js:309-333 | The form is accepted exactly when all four checks pass; each error is reported exactly when its check fails and every earlier check passes |
| `ContactForm.FirstFailureDecides` | script.js:312-330 | Once a check fails, changing the fields checked after it does not change the verdict |
| `ContactForm.FiveEmojiPassMessageCheck` | script.js:327 | Five emoji outside the Basic Multilingual Plane have `.length` 10 and so pass the message check |
| `ContactForm.PaddingIgnored` | script.js:312-327 | White space added before and after a field leaves its trimmed value unchanged, so it never changes whether the name, subject or message check passes |
| `ContactForm.TrimSplits` | script.js:312 | Every string is its trimmed value with only white space before and after it |
| `ContactForm.SampleEmails` | script.js:310 | `a@b.c` is accepted; `a@b` and an address with a space are rejected |
| `Reveal.Scheduled` | script.js:184-190 | A batch schedules no more reveals than it has entries |
| `Reveal.EnteredMeansIntersectingEntry` | script.js:184 | An element is among those that entered exactly when some entry of the batch reports it intersecting |
| `Reveal.ExitedMeansLeavingEntry` | script.js:254-256 | An element is among those that left exactly when some entry of the batch reports it not intersecting |
| `Reveal.ScheduledCountsEntries` | script.js:246-253 | A batch schedules one timer for each intersecting entry of an element |
| `Reveal.OneShotReveal.constructor` | script.js:197 | Every `data-aos` element starts observed, not animated, with no timer pending |
| `Reveal.OneShotReveal.OnEntries` | script.js:182-195 | Intersecting entries unobserve their elements and schedule their reveals; other entries change nothing; `aos-animate` is never removed; a pending or animated element is not observed |
| `Reveal.OneShotReveal.Fire` | script.js:187-189 | A timer adds `aos-animate` to its element and is consumed; the set of animated elements only grows |
| `Reveal.PlanetReveal.constructor` | script.js:261 | Every planet starts observed, not visible, with no timer pending |
| `Reveal.PlanetReveal.OnEntries` | script.js:244-259 | Leaving entries remove `visible` at once; entering entries schedule adding it; the planets stay observed |
| `Reveal.PlanetReveal.Fire` | script.js:251-253 | A timer adds `visible` to its planet, whether or not the planet is still in view |
| `Reveal.OneShotScenario` | script.js:182-197 | A one-shot element ignores a leaving entry, is unobserved on entering, and keeps `aos-animate` afterwards |
| `Reveal.LateRevealAfterExit` | script.js:244-257 | A planet that enters and then leaves before its timer runs is hidden on leaving and shown again when the timer runs |
| `Navigation.LastContaining` | script.js:102-107 | The result is the last section containing the scroll position, with the 100-pixel lead; none exactly when no section contains it |
| `Navigation.MarksAfterScroll` | script.js:99-116 | The marks after `updateActiveLink` are unchanged when no section contains the scroll position; otherwise a link is active exactly when its `href` is `#` followed by the id of the last section that contains it |
| `Navigation.DisjointSectionsPickTheCurrentOne` | script.js:99-116 | When no two sections contain the same scroll position, the active links are those of the one section that does |
| `Navigation.NavBar.constructor` | script.js:77-97 | The bar starts with the section ids, the links and their marks as the markup gives them |
| `Navigation.NavBar.UpdateActiveLink` | script.js:99-116 | Given the section extents read at this scroll, when some section contains the scroll position the active links are exactly those pointing to the last such section; otherwise the marks are unchanged |
| `Navigation.NavBar.UpdateNavbar` | script.js:119-125 | The bar has the `scrolled` style exactly when the page is scrolled more than 50 pixels |
| `Navigation.NavBar.OnScroll` | script.js:127-130 | A scroll event, with the layout of that moment, updates the active link and then the bar's style |

## Left out

- Star field, shooting stars, parallax, skill-bar widths and the constellation canvas: they use random placement, floating-point geometry, CSS strings and canvas drawing.
- The typing effect, cursor glow and constellations: the page never calls them.
- Toast notifications, the simulated submission (random success, delay, promise), form reset, back-to-top, smooth scrolling and the mobile menu: these are DOM construction, timers and browser scrolling APIs. `ErrorNotice` gives the error text of each failed check, but showing it is not modelled.
- Timer delays (`data-aos-delay` through `parseInt`, `data-speed * 300` through `parseFloat`): timers are pending events that may run in any order, so the delay values and their fallbacks are not modelled.
- The intersection observer's geometry (threshold, root margin): an entry's "is intersecting" flag is an input. The browser delivers entries only for observed elements; `OnEntries` requires this of its caller.
- Failures of local storage: storage is a field that always works.
- The literal translation table: it is a parameter, except for the sample in `SampleSwitchToEnglish`.
- JavaScript property lookup through the prototype chain (a language or key such as `constructor`): the table is an ordinary map.
- A missing form field (`undefined`): fields are strings. A missing name, subject or message fails like an empty one. A missing email is tested as the text "undefined", which has no `@` and so fails too.
- The flag and code elements: the model assumes they exist whenever the switcher button does, as the page's markup provides.
- Nested tagged elements: the model assumes no `data-i18n` element sits inside another one. Setting `textContent` (script.js:866) replaces an element's descendants, and the child markup of an element is not modelled.
- `Navigation.NavBar.UpdateActiveLink`: scroll positions and section extents are whole pixels, though the browser may report a fractional `scrollY`.
