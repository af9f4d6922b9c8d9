# Language switcher and testimonial list of the site script

This project models the parts of `scripts.js`, the client script of a small
marketing web site, that carry rules rather than presentation wiring:

- **Initial language** (`Language.InitialLanguage`): the URL's `lang` parameter
  when it is one of `de`, `en`, `es`, `it`; else the `site-lang` value from local
  storage when supported; else `de`.
- **Translation lookup** (`Locale`): a locale file is a `Value` (a string, an
  object, or any other value known only by its truthiness). A key from
  `data-i18n` is split on `.` (`Text.Split`) and walked step by step
  (`Locale.Resolve`, run by the loop in `Locale.LookupKey`). The walk descends
  only while the current value is truthy, so an empty string met half way stops
  the walk and is then written. `Locale.Descend` is an independent strict
  reading of a path, and the lemmas relate the two.
- **Translation application** (`Translation`): a document element is a record
  of attributes, text content and whether it lies in the language menu. A
  marked element whose key resolves to a string gets that string in the
  attribute named by `data-i18n-attr`, or in its text when there is no such
  attribute (`Translation.ApplyToElement`, `Translation.Translated`). The menu
  items' `aria-current` marks are moved by `Translation.MarkCurrent` and
  `Translation.Marked`.
- **Language switch** (`Language.Page`): a class holding the page state that
  `setLanguage` and the dropdown handlers change: the elements, the root `lang`
  attribute, local storage, the label text, the dropdown's `open` class and the
  button's `aria-expanded`. The outcome of loading the locale file is a parameter
  `load: Option<Value>`. On `None`, nothing changes. On `Some`, all five updates
  happen together.
- **Dropdown**: the button toggles it, a successful choice in the menu closes it,
  and a click outside closes it. After a failed load the menu stays open, because
  the closing code comes after the awaited switch.
- **Testimonials** (`Testimonials`): a card is a record `{name, rating, comment}`
  and the grid is a class over the sequence of cards. `LimitTestimonials` removes
  cards from the end while there are more than the cap. A submission with a
  blank trimmed name or comment is dropped. Otherwise the new card goes first and
  the list is capped at 6.

Two behaviours of the code are easy to miss, and the model keeps both. A key
path that runs into an empty string part way does not leave the element
unchanged: the walk stops there and the empty string is written
(`Locale.EmptyPrefixStops`). Applying a dictionary twice is guaranteed to give
the same state as applying it once when no `data-i18n-attr` names `data-i18n` or
`data-i18n-attr` itself (`Translation.TranslatedIdempotent`). When it names
`data-i18n`, a second pass can follow the rewritten key and write something
else. When it names itself, a second pass can write a different attribute. Both
cases are exhibited by `Translation.IdempotenceNeedsSafeTarget`.

## Model

| member | source | states |
|---|---|---|
| `Text.Split` | scripts.js:95 | `key.split(".")` gives at least one piece, and no piece contains the separator |
| `Text.JoinSplit` | scripts.js:95 | joining the pieces of a split with the separator gives back the original key |
| `Text.SplitJoin` | scripts.js:95 | splitting a join of separator-free pieces gives back the pieces, so split and join are inverses |
| `Text.TrimStart` | scripts.js:222-224 | the result is a suffix of the input, everything dropped is ECMAScript whitespace, and the result does not start with whitespace |
| `Text.TrimEnd` | scripts.js:222-224 | the result is a prefix of the input, everything dropped is whitespace, and the result does not end with whitespace |
| `Text.Trim` | scripts.js:222-224 | `.trim()` gives a contiguous piece of the field that neither starts nor ends with whitespace, and only whitespace is cut off on either side |
| `Text.TrimEmptyIff` | scripts.js:222-226 | a trimmed field is empty exactly when the field is all whitespace |
| `Text.TrimIdempotent` | scripts.js:222-224 | trimming twice is trimming once |
| `Text.UpperCase` | scripts.js:117 | `toUpperCase` keeps the length and capitalises each ASCII letter in place |
| `Text.UpperCaseIdempotent` | scripts.js:117 | the upper-cased label has no lower-case ASCII letter and upper-casing it again changes nothing |
| `Locale.Resolve` | scripts.js:96-99 | the `forEach` walk keeps a falsy value unchanged for every remaining key |
| `Locale.LookupKey` | scripts.js:94-99 | the loop that reassigns `val` key by key ends on the value `Resolve` gives for the split key |
| `Locale.LookupText` | scripts.js:100 | `typeof val === "string"` after the walk: when the whole path exists, the result is its string, or nothing when it ends on a non-string; a non-empty text comes only from a path that exists all the way down |
| `Locale.ResolveFollowsPath` | scripts.js:96-99 | when every step of the path exists in nested objects, the walk ends on the value at its end |
| `Locale.ResolveStringIff` | scripts.js:96-100 | the walk ends on a string exactly when the whole path leads to that string, or the string is empty and some prefix of the path already led to an empty string |
| `Locale.LookupNonEmptyIff` | scripts.js:94-100 | a non-empty translation is found exactly when the key's whole path exists and ends on it |
| `Locale.EmptyPrefixStops` | scripts.js:98-100 | an empty string met on the way stops descent, and the empty string is the text written |
| `Translation.ApplyToElement` | scripts.js:94-107 | an element changes only when it is marked and its key yields a string; it then gains at most the attribute named by `data-i18n-attr`, its text changes only when there is no such attribute, and it stays where it was |
| `Translation.Translated` | scripts.js:92-108 | every element of the document, in order, is replaced by its translated form, and the count is kept |
| `Translation.ApplyChangesOnlyOnString` | scripts.js:100-107 | an element changes only when it is marked and its key resolves to a string; otherwise every attribute and the text are unchanged |
| `Translation.ApplyWritesNamedAttribute` | scripts.js:101-103 | with `data-i18n-attr`, exactly the named attribute is set to the translation, the other attributes keep their values and the text is untouched |
| `Translation.ApplyWritesText` | scripts.js:104-106 | without `data-i18n-attr`, only the text content is set |
| `Translation.ApplyIdempotent` | scripts.js:93-107 | applying the dictionary twice to an element equals applying it once, when the target is not a translation-control attribute |
| `Translation.TranslatedIdempotent` | scripts.js:92-108 | applying the dictionary twice to the document equals applying it once, under the same condition |
| `Translation.IdempotenceNeedsSafeTarget` | scripts.js:101-103 | for each case the idempotence lemmas exclude there is an element and a dictionary where a second application differs: `data-i18n-attr` naming `data-i18n`, and `data-i18n-attr` naming itself |
| `Translation.MarkCurrent` | scripts.js:120-123 | a menu item carries `aria-current="true"` afterwards exactly when its `data-lang` is the language; no other attribute, the text, or any non-menu element changes |
| `Translation.Marked` | scripts.js:119-124 | every element of the document, in order, goes through the marking step, and the count is kept |
| `Translation.MarkedExactlyCurrent` | scripts.js:119-124 | afterwards exactly the menu items whose `data-lang` is the language carry `aria-current`, with value `"true"`; other attributes, the text and all non-menu elements are unchanged |
| `Language.Accepted` | scripts.js:133-135 | `v && SUPPORTED.includes(v)` holds exactly when `v` is present and supported, so the truthiness test adds nothing |
| `Language.InitialLanguage` | scripts.js:129-137 | the initial language is always supported, and it is the URL parameter, the stored value or `de` |
| `Language.UrlLanguageWins` | scripts.js:133-134 | a supported URL parameter is chosen whatever is stored |
| `Language.StoredLanguageNext` | scripts.js:135-136 | without a supported URL parameter, a supported stored value is chosen |
| `Language.DefaultLanguageLast` | scripts.js:132 | with neither source supported, `de` is chosen |
| `Language.LabelFor` | scripts.js:117 | a supported code shows its label from `LABELS`, an unknown code shows upper-cased, and the label is empty only for the empty code |
| `Language.Page.ApplyTranslations` | scripts.js:92-109 | the element loop leaves the document as `Translated` describes, looking each key up with `LookupKey` |
| `Language.Page.MarkCurrentItems` | scripts.js:119-124 | the marking loop leaves the document as `Marked` describes |
| `Language.Page.SetLanguage` | scripts.js:112-125 | a failed load changes nothing; a successful one translates, sets the root `lang`, stores `site-lang`, sets the label and moves `aria-current`, all together |
| `Language.Page.Start` | scripts.js:128-139 | start-up reads the stored preference, picks the initial language by priority and switches to it, with the supported label |
| `Language.Page.ClickButton` | scripts.js:142-145 | the button flips `open` and sets `aria-expanded` to match |
| `Language.Page.ClickMenu` | scripts.js:148-157 | a click outside any item or a failed load changes nothing, so the dropdown stays open; a successful switch also closes it |
| `Language.Page.ClickDocument` | scripts.js:160-165 | a click outside the dropdown closes it; a click inside changes nothing |
| `Testimonials.Limited` | scripts.js:208-214 | the capped list has length `min(length, max)` and is the prefix of that length, so only cards at the end are removed |
| `Testimonials.LimitedAfterPrepend` | scripts.js:239-242 | after `prepend` and the cap, the new card is first and the old cards follow in order, with length `min(old length + 1, 6)` |
| `Testimonials.Submitted` | scripts.js:222-242 | a blank trimmed name or comment leaves the list unchanged; otherwise the new card with the trimmed fields is first, followed by the old cards in order, with length `min(old length + 1, 6)` |
| `Testimonials.Acceptable` | scripts.js:222-226 | a submission goes ahead exactly when both the name and the comment hold a non-whitespace character |
| `Testimonials.RejectedIffBlank` | scripts.js:222-226 | a submission is dropped exactly when the name or the comment consists only of whitespace |
| `Testimonials.SubmitAtCapacity` | scripts.js:237-242 | a valid submission to a full list keeps 6 cards, the new one first and the previous last one gone |
| `Testimonials.SubmitKeepsCap` | scripts.js:239-242 | a list within the cap stays within it after a submission |
| `Testimonials.Grid.LimitTestimonials` | scripts.js:208-214 | removing the last child while there are more than `max` leaves `Limited` of the old list |
| `Testimonials.Grid.Submit` | scripts.js:219-249 | the submit handler leaves `Submitted` of the old list and reports whether the submission was accepted |

## Left out

- Loading a locale file (scripts.js:85-89) is network I/O and JSON parsing. Its outcome is the parameter `load`, where `None` stands for a failed fetch, a non-success status or a parse error.
- The hamburger menu (scripts.js:17-29), scroll-based highlighting (scripts.js:32-47), the fade-in observer (scripts.js:50-62) and the footer year (scripts.js:65-68) are left out. They are class flips and callbacks from the layout engine, with no rule to state.
- The star ratings (scripts.js:172-205) are left out: they build SVG nodes and compute a floating-point width. The clamp of the rating to [0, 5] at line 186 and `parseFloat` are not modelled. A card's `rating` is the text it carries.
- The card's HTML markup (scripts.js:229-235), the call to `initStarRatings` after a submission and `reviewForm.reset()` are rendering, and are not modelled. Inserting the raw text into `innerHTML` can inject markup. That markup stays inside the new card, so the number of cards is not affected.
- Event handlers run asynchronously. Each one is modelled as one atomic step, so a second click while a load is pending is not modelled.
- Property access on values that are not objects is modelled as `undefined`. In JavaScript, a string key can select a character of a string or array, `length` gives a number, and inherited properties such as `constructor` are found too. This applies to walks over the dictionary and to `LABELS[lang]`.
- `setAttribute` throws on an invalid attribute name, for example an empty `data-i18n-attr`. That would abort `applyTranslations` part way through. HTML documents also lower-case attribute names. The model assumes valid, lower-case names.
- The document is modelled as a flat sequence of elements. Setting `textContent` also removes an element's descendants. The label element and the root element are separate fields, not members of that sequence.
- `closest("[data-lang]")` and `dd.contains(e.target)` are tree queries. Their answers are the parameters `itemLang` and `insideDropdown`.
- A page without the dropdown (scripts.js:77), the grid (scripts.js:210) or the review form (scripts.js:218) is not modelled. Without the grid, the submit handler would throw at `grid.prepend`.
- Exceptions raised by local storage, and the decoding of URL parameters, are not modelled. `urlLang` is the already-decoded value of `lang`.
- Text.UpperCase: capitalises ASCII letters only. JavaScript's `toUpperCase` maps all of Unicode and can change the length (`ß` becomes `SS`).
- Translation.TranslatedIdempotent: requires that no `data-i18n-attr` names `data-i18n` or `data-i18n-attr`. Without that condition idempotence does not hold (`Translation.IdempotenceNeedsSafeTarget`).
