# Haz La Tarea landing site: behavioural core in Dafny

The site is a static marketing page. Three pieces of it have behaviour that
can be stated exactly, and this project models and proves each of them.

- **`Helpers`** (`helpers.dfy`) holds the string utilities of
  `src/utils/helpers.ts`:
  - `truncateText` cuts a text and appends `...`.
  - `slugify` builds URL slugs.
  - `isValidEmail` and `isValidPhone` are the regular-expression validators for
    e-mail addresses and Peruvian mobile numbers.
  - `cn` joins CSS class names conditionally.

  These are pure functions. The regular expressions of the two validators
  each get a ghost predicate that says literally what strings they match,
  and a lemma proves the executable check equivalent to it. The three
  `replace` steps of `slugify` are functions of their own, and lemmas pin
  down what each one does.
- **`Faq`** (`faq_section.dfy`) is the single-open accordion of the FAQ
  section.
  - The class `Accordion` holds the `activeIndex` cell and has the `Toggle`
    transition.
  - The functions `Toggled` and `Replay` describe the same behaviour on
    values, so that lemmas can reason about any sequence of clicks.
- **`Header`** (`header.dfy`) is the mobile-menu controller of the site
  header.
  - The class `MobileMenu` holds the open flag and the two body style fields
    that the scroll-lock effect writes.
  - Its handlers, the effect and the cleanup are methods.
  - `HandleClick` combines a handler with the effect re-run that React
    performs when the flag changes.
  - The pure functions `Dispatch` and `Session` are the specification the
    class is proved against.

Strings are sequences of Unicode scalar values. JavaScript's `\s` and
`trim()` are the concrete predicate `Helpers.IsSpace`, which covers
ECMAScript's WhiteSpace and LineTerminator code points.

`truncateText` is given an integer `maxLength`. The source does not rule out
negative values, and it handles them the way `slice` does: `slice(0, -n)`
drops the last `n` characters. The model does the same through `SliceEnd`.
In that case the result can be longer than `maxLength + 3`, so that bound is
stated only for `maxLength >= 0`.

## Model

| member | source | states |
|---|---|---|
| Helpers.Trim | src/utils/helpers.ts:23 | the trimmed text is no longer than the input and has no white space at either end |
| Helpers.TrimShape | src/utils/helpers.ts:23 | `trim()` returns one contiguous piece of the text, and everything it removes before and after that piece is white space |
| Helpers.SliceEnd | src/utils/helpers.ts:23 | the cut point of `slice(0, end)` always lies within the text |
| Helpers.TruncateText | src/utils/helpers.ts:21-24 | a text that fits is returned unchanged; otherwise the result ends in `...`, and it is at most `maxLength + 3` long when `maxLength >= 0` |
| Helpers.TruncateKeepsTrimmedPrefix | src/utils/helpers.ts:23 | what comes before the ellipsis is a piece of the first `maxLength` characters, with only white space cut from around it, and it has no white space at either end |
| Helpers.StripMarks | src/utils/helpers.ts:33 | no combining mark U+0300..U+036F remains |
| Helpers.DropRun | src/utils/helpers.ts:34 | removes exactly the leading run of characters outside [a-z0-9] |
| Helpers.CollapseRuns | src/utils/helpers.ts:34 | the output uses only [a-z0-9-], never contains "--", is empty only for empty input, and starts with a hyphen exactly when the input starts outside [a-z0-9] |
| Helpers.DropRunPrefix | src/utils/helpers.ts:34 | a run of characters outside [a-z0-9] in front of a letter or digit, or in front of nothing, is exactly what is dropped |
| Helpers.DropRunConcat | src/utils/helpers.ts:34 | when a letter or digit comes before the cut, dropping the leading run does not reach the text after it, and a letter or digit stays last |
| Helpers.CollapseConcat | src/utils/helpers.ts:34 | collapsing a text cut right after a letter or digit is collapsing the two parts separately and concatenating the results |
| Helpers.CollapseGap | src/utils/helpers.ts:34 | a non-empty run of other characters before a letter or digit, or at the end, becomes one hyphen |
| Helpers.CollapseSplit | src/utils/helpers.ts:34 | every maximal run of characters outside [a-z0-9] becomes exactly one hyphen in its place, whatever the run holds; with CollapseFixesSlugText this fixes the output on every input |
| Helpers.CollapseFixesSlugText | src/utils/helpers.ts:34 | text over [a-z0-9-] without "--" is left unchanged, so a word over [a-z0-9] is copied as it is |
| Helpers.CollapseKeepsAlnums | src/utils/helpers.ts:34 | collapsing runs keeps every letter and digit, in order |
| Helpers.Slugify | src/utils/helpers.ts:29-36 | the output is a slug: only [a-z0-9-], no "--", and no hyphen at either end |
| Helpers.SlugifyKeepsAlnums | src/utils/helpers.ts:29-36 | the slug's letters and digits are exactly those of the lower-cased, decomposed, mark-free text, in order |
| Helpers.SlugifyEmptyIff | src/utils/helpers.ts:34-35 | the slug is "" exactly when the lower-cased, decomposed, mark-free text has no character in [a-z0-9] |
| Helpers.SlugifyTwoWords | src/utils/helpers.ts:29-36 | two words over [a-z0-9] separated by any run of other characters give the two words joined by one hyphen, so "hello, world" becomes "hello-world" |
| Helpers.StripEdgeHyphens | src/utils/helpers.ts:35 | applied to text over [a-z0-9-] without "--", the last `replace` leaves a slug: no hyphen remains at either end |
| Helpers.StripEdgesShape | src/utils/helpers.ts:35 | the last `replace`, of a hyphen at the start or the end, removes at most one hyphen from the front and at most one from the back, and leaves everything between them as it is |
| Helpers.SlugifyStripsOnlyEdges | src/utils/helpers.ts:29-36 | the slug is the collapsed text with at most one hyphen taken off each end; with CollapseSplit, CollapseFixesSlugText and the slug shape this fixes the slug of every input, leading and trailing runs included |
| Helpers.SlugStepsFixSlugs | src/utils/helpers.ts:33-35 | a slug passes unchanged through the mark stripping and both replacements |
| Helpers.SlugifyIdempotent | src/utils/helpers.ts:29-36 | slugify of a slug is the same slug, whenever case mapping and NFD leave the slug alone |
| Helpers.AsciiLower | src/utils/helpers.ts:31 | ASCII lower-casing maps each character on its own and keeps the length |
| Helpers.SlugifyAsciiIdempotent | src/utils/helpers.ts:29-36 | with ASCII lower-casing as the fold, slugify is idempotent on every input |
| Helpers.IsValidEmailMatchesPattern | src/utils/helpers.ts:41-44 | the explicit check (no white space, exactly one '@' with something before it, and a '.' after it that is neither first nor last) accepts exactly the strings `/^[^\s@]+@[^\s@]+\.[^\s@]+$/` matches |
| Helpers.ValidEmailMatchesPattern | src/utils/helpers.ts:42 | every address the check accepts splits into the regular expression's three runs |
| Helpers.PatternSplitIsValidEmail | src/utils/helpers.ts:42 | every split into the three runs is an address the check accepts |
| Helpers.CountExactlyAt | src/utils/helpers.ts:42 | a character that occurs only at position i occurs exactly once |
| Helpers.RemoveSpaces | src/utils/helpers.ts:51 | `replace(/\s/g, '')` leaves no white space |
| Helpers.IsValidPhoneMatchesPattern | src/utils/helpers.ts:49-52 | the phone check holds exactly when the text without white space is "9" and 8 digits, or "+519" and 8 digits, as `/^(\+51)?9\d{8}$/` requires |
| Helpers.PhoneIgnoresSpaces | src/utils/helpers.ts:51 | inserting white space anywhere does not change the verdict |
| Helpers.KeptClasses | src/utils/helpers.ts:89 | `filter(Boolean)` keeps exactly the non-empty class strings among the arguments, and nothing else |
| Helpers.CnSingleton | src/utils/helpers.ts:89 | a single non-empty class string is returned as it is; with CnConcat and CnDropsFalsy this fixes `cn` on every argument list, order included |
| Helpers.CnConcat | src/utils/helpers.ts:88-90 | `cn` of two argument lists is the two results joined with one space, and the space is left out when either side is empty |
| Helpers.CnDropsFalsy | src/utils/helpers.ts:89 | an `undefined`, `null`, `false` or "" argument anywhere contributes nothing |
| Helpers.CnEmptyIff | src/utils/helpers.ts:89 | `cn` returns "" exactly when no argument is a non-empty string |
| Helpers.CnSplitRoundTrip | src/utils/helpers.ts:88-90 | when no class contains a space, splitting the result on spaces gives back exactly the kept classes, in order |
| Helpers.FilterIdentity | src/utils/helpers.ts:33 | removing characters changes nothing exactly when none of them occurs |
| Helpers.FilterEmpty | src/utils/helpers.ts:51 | removing characters leaves "" exactly when every character is removed |
| Faq.ShownAnswers | src/components/sections/FAQSection.tsx:88 | in every state, and so after any toggles, the set of rendered answers holds at most one item: the open one, when it is in the list |
| Faq.ToggleTwice | src/components/sections/FAQSection.tsx:38 | toggling an item twice restores the state exactly when that item was open or nothing was open |
| Faq.ReplayInRange | src/components/sections/FAQSection.tsx:71-74 | toggles issued only with indices of the list keep `activeIndex` empty or within the list |
| Faq.FaqClicksInRange | src/components/sections/FAQSection.tsx:14-39 | on the page's list of five questions, after any clicks on its questions from mounting, the open item is none or one of the five, and at most one answer is rendered |
| Faq.ReplayLastWins | src/components/sections/FAQSection.tsx:37-39 | after any non-empty sequence of toggles, either nothing is open or the item toggled last is |
| Faq.Accordion.constructor | src/components/sections/FAQSection.tsx:12 | initially no item is open |
| Faq.Accordion.Toggle | src/components/sections/FAQSection.tsx:37-39 | toggling the open item closes it; toggling any other item opens exactly that one; a toggle with an index of the list keeps the state in range |
| Faq.Accordion.IsAnswerShown | src/components/sections/FAQSection.tsx:88 | an answer is shown only for the open item, and for an in-range state exactly for the members of `ShownAnswers` |
| Faq.Accordion.IsChevronRotated | src/components/sections/FAQSection.tsx:80 | the chevron is rotated exactly when the answer is shown |
| Header.EffectLocksIffOpen | src/components/Header.tsx:19-26 | the effect writes "hidden"/"none" when the menu is open and "unset"/"auto" when it is closed, and the lock is written exactly when the menu is open |
| Header.ClickRules | src/components/Header.tsx:87 | the burger button flips the state, and flipping twice restores it; the overlay links and the call to action close the menu from any state, and repeating one changes nothing |
| Header.DispatchKeepsSync | src/components/Header.tsx:19-31 | one click, with the effect re-run that follows a change, keeps the body style equal to what the effect writes for the new state |
| Header.SessionSynced | src/components/Header.tsx:19-31 | after any clicks from mounting, the body is locked exactly while the menu is open |
| Header.SessionOpenIffOddButtons | src/components/Header.tsx:87 | the menu is open exactly when the burger button has been clicked an odd number of times since the last overlay click |
| Header.LockNeverLeaks | src/components/Header.tsx:19-31 | after any clicks a closed menu leaves the body released, and on an open menu every control closes it and the cleanup and effect re-run release the body at once |
| Header.RenderingFollowsLock | src/components/Header.tsx:51-117 | the overlay (line 115), the header's z-index of 120 above the overlay's 110 (lines 51, 117) and the label "Cerrar menú" (line 89) are all rendered exactly while the body is locked, and the header's z-index of 100 and the label "Abrir menú" exactly while it is released |
| Header.MobileMenu.constructor | src/components/Header.tsx:8 | the menu starts closed and the body released |
| Header.MobileMenu.ToggleButton | src/components/Header.tsx:87 | the button flips the open flag and leaves the body alone |
| Header.MobileMenu.SelectLink | src/components/Header.tsx:138 | a link click closes the menu whatever its prior state; the call to action at line 157 uses the same handler |
| Header.MobileMenu.ApplyEffect | src/components/Header.tsx:20-26 | with the menu open the body gets "hidden"/"none", and with it closed "unset"/"auto" |
| Header.MobileMenu.Teardown | src/components/Header.tsx:27-30 | the cleanup, run before each re-run and on unmount, always leaves the released style "unset"/"auto", even when the menu is open, and keeps the flag |
| Header.MobileMenu.HandleClick | src/components/Header.tsx:31 | a click, followed by the cleanup and the effect when the flag changed, gives exactly the state `Dispatch` specifies, and keeps the body in step with the flag |

## Left out

- `formatNumber`, `formatPrice` and `formatDate` are not modelled. They rely on `Intl` locale formatting.
- `debounce` and `throttle` are not modelled. They rely on timers and asynchronous scheduling.
- `generateId` is not modelled. It relies on randomness and the clock.
- `scrollToElement`, `isMobile` and `getWindowWidth` are not modelled. They are DOM and window I/O.
- Helpers.Slugify: `toLowerCase()` and `normalize('NFD')` need Unicode case and decomposition tables. They are the parameter `fold`, so the letters and digits a slug keeps are stated relative to `fold`. Idempotence is proved for any fold that leaves slug strings unchanged, and for ASCII lower-casing.
- Helpers.TruncateText: lengths and slicing count Unicode scalar values, not UTF-16 code units, so text outside the Basic Multilingual Plane is measured differently from JavaScript.
- Helpers.TruncateText: `maxLength` is an integer. A fractional or NaN `maxLength` is not modelled.
- Helpers.Cn: JavaScript would also accept arbitrary values at run time. Only the values the parameter type admits are modelled: strings, `undefined`, `null` and `false`.
- Faq.Accordion.Toggle: the source does not range-check the index either. Toggle accepts any index and keeps the range invariant only for indices of the list.
- The question and answer texts of the FAQ list and the navigation entries of the header are static content and are not modelled. Only the list length of five is kept (`Faq.FaqCount`, used by `Faq.FaqClicksInRange`).
- Animation is not modelled: framer-motion variants, `AnimatePresence` exit timing and `useInView`. It is a foreign library with floating-point durations. "Rendered" in the table means "in the React tree": an element that leaves the tree inside `AnimatePresence` stays visible until its exit animation ends (0.3 s for an FAQ answer, 0.4 s for the menu overlay), so while items are switched two answers can be visible for a moment, and the overlay can still be fading out after the body is released.
- Header: React's scheduling is not modelled. An effect is taken to run right after the render that follows each click.
- The methodology carousel (`src/components/sections/MetodologiaSection.tsx`) is not modelled. Its `activeIndex` cell only mirrors the index the Swiper library reports on each slide change, and its dots only forward an index to Swiper's `slideToLoop`. Swiper's code is not part of this model, so there is nothing of its own to state.
- The scroll button of the hero section (`src/components/sections/HeroSection.tsx`) is not modelled. It is DOM scrolling through `scrollIntoView`.
- The remaining page sections and the configuration files hold only markup and data, so they are not modelled.
