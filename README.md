# Contact form and navigation highlighting of a portfolio site, in Dafny

The site's page script (`script.js`) has two pieces with real decision logic,
and this project models and verifies both:

- **The contact-form submit handler.** It trims the three inputs (name, email,
  message) and checks each one with an ordered pair of rules: first "not
  empty", then a minimum length (name 2, message 10) or the email pattern
  `^[^\s@]+@[^\s@]+\.[^\s@]+$`. Every field is checked. Before the checks it
  clears all error markers and error texts; each failing rule then marks its
  input with the `error` class and writes its text into the field's error box.
  The form is hidden, the success box shown and a thank-you alert raised only
  when all three fields pass.
- **Highlighting the current page in the navigation.** This runs once when the
  page loads. The current page is the last `/`-separated segment of the
  location's pathname, or `index.html` when that segment is empty. Each
  navigation link gets the `active` class when its `href` equals that page and
  loses it otherwise.

Modules, one per concern:

| file | module | what it holds |
|---|---|---|
| `wrappers.dfy` | `Wrappers` | `Option`, for a missing attribute or a passing check |
| `text.dfy` | `Text` | JavaScript's whitespace class, `trim`, and `split` on one character, each with its specification |
| `email.dfy` | `Email` | `isValidEmail` written out as a predicate on characters, and the regular expression's shape as an independent definition |
| `validation.dfy` | `Validation` | the three field rules and the pure validator `Validate`, returning `(field, text)` errors in handler order |
| `contact_form.dfy` | `ContactPage` | class `ContactForm`: input error markers, error-box texts, form and success-box visibility; `ClearErrors`, `ShowError`, `Submit` |
| `navigation.dfy` | `Navigation` | the current-page computation and the loop that sets `active` on an array of link flags |

The pure rules are functions. The handler's state changes are methods on a
class. The markers are a `set<Field>`, the error boxes a `map<Field, string>`
(a field whose box is missing from the page has no key), and visibility two
`bool` fields. The navigation loop updates an `array<bool>` in place. Values
read from the DOM (the raw input values, the pathname, the links' `href`
attributes, whether the success box exists) are parameters or constructor
arguments.

## Model

| member | source | states |
|---|---|---|
| Text.IsWhitespace | script.js:60-62 | the range test accepts exactly the code points of ECMA-262's WhiteSpace and LineTerminator sets, listed out: the characters `trim` strips and `\s` matches |
| Text.Trim | script.js:60-62 | the result is no longer than the input and neither starts nor ends with whitespace |
| Text.TrimStartSpec | script.js:60-62 | dropping leading whitespace leaves a suffix of the input; what was dropped is all whitespace; the result is empty or starts with a non-whitespace character |
| Text.TrimEndSpec | script.js:60-62 | dropping trailing whitespace leaves a prefix of the input; what was dropped is all whitespace; the result is empty or ends with a non-whitespace character |
| Text.TrimIsTrimOf | script.js:60-62 | `trim` returns a slice of its input with only whitespace around it, and neither end of that slice is whitespace |
| Text.TrimOfIsUnique | script.js:60-62 | any string related to the input in that way is exactly the `trim` result, so the independent definition pins `trim` down |
| Text.TrimIdempotent | script.js:60-62 | trimming a trimmed value changes nothing |
| Text.Split | script.js:193 | `split` always returns at least one piece, so `pop()` never comes back empty-handed |
| Text.SplitJoin | script.js:193 | joining the pieces of `split` with the separator gives back the input, and no piece contains the separator |
| Text.LastOfSplit | script.js:193 | the last piece of `split('/')` is exactly what follows the last `/`, or the whole string when there is no `/` |
| Text.AfterLastSpec | script.js:193 | what follows the last separator is a suffix free of separators, and the character before it is a separator unless it is the whole string: the longest such suffix |
| Email.FindAt | script.js:121-125 | the position found is the first `@`; when none is found there is no `@` at all |
| Email.ScanMatchesPattern | script.js:121-125 | the character-level scan (no whitespace, exactly one `@`, a non-empty part before it, a `.` strictly inside the part after it) accepts a string iff it splits as `[^\s@]+ @ [^\s@]+ . [^\s@]+` |
| Email.IsValidEmail | script.js:121-125 | `isValidEmail` is true exactly when the anchored pattern `^[^\s@]+@[^\s@]+\.[^\s@]+$` matches the whole string |
| Validation.NameCheck | script.js:67-73 | the name check passes iff the name has at least 2 characters, and a failing check always has a non-empty text |
| Validation.EmailCheck | script.js:76-82 | the email check passes iff the email matches the pattern (so an empty email fails), and a failing check always has a non-empty text |
| Validation.MessageCheck | script.js:85-91 | the message check passes iff the message has at least 10 characters, and a failing check always has a non-empty text |
| Validation.Validate | script.js:64-92 | at most one error per field, listed in the order name, email, message |
| Validation.ValidateReportsEachField | script.js:65-92 | every field is checked with no short-circuit: a field is in the error list iff its own rule fails; its text is the one its rule gives, or empty; it is non-empty exactly for a failed field |
| Validation.NameRule | script.js:68-74 | an empty name gives "Please enter your name"; a 1-character name gives "Name must be at least 2 characters"; 2 or more characters gives no name error |
| Validation.EmailRule | script.js:77-83 | an empty email gives "Please enter your email address"; a non-empty one fails with "Please enter a valid email address" exactly when it does not match the pattern |
| Validation.MessageRule | script.js:86-92 | an empty message gives "Please enter a message"; 1 to 9 characters gives "Message must be at least 10 characters"; 10 or more gives no message error |
| Validation.ValidIffNoCheckFails | script.js:65-95 | `isValid` is true iff none of the three checks reported an error |
| Validation.CheckFieldIffAcceptable | script.js:67-92 | each field's two-stage check passes iff the field meets its stated rule (length bound or email pattern) |
| Validation.ValidIffAllAcceptable | script.js:65-95 | the form is valid iff the name has at least 2 characters, the email matches the pattern and the message has at least 10 characters |
| Validation.ErrorCountIsFailures | script.js:65-92 | the number of errors equals the number of fields whose rule fails |
| Validation.ValidateTrimmedIsStable | script.js:60-62 | validating values trimmed twice gives what validating them trimmed once gives |
| Validation.ScenarioAllEmpty | script.js:64-92 | three empty fields give the three "please enter" errors in field order |
| Validation.ScenarioShortButValid | script.js:64-92 | ("Jo", "jo@x.com", "Hello there!") is valid |
| Validation.ScenarioAllTooShort | script.js:64-92 | ("J", "bad-email", "short") gives the name-length, email-format and message-length errors in field order |
| Validation.ScenarioTypical | script.js:64-92 | ("Jordan", "jordan@test.org", "This is a sufficiently long message.") is valid |
| ContactPage.Thanks | script.js:108 | the alert text starts with the fixed prefix, ends with the fixed suffix, and has exactly the name between them |
| ContactPage.ThanksIsInjective | script.js:108 | different names give different alert texts |
| ContactPage.ShownAllAt | script.js:67-92 | after the three checks have shown their errors on cleared boxes, each field's marker and box depend only on that field's own check |
| ContactPage.ShownAllIsValidate | script.js:64-92 | showing the three checks' errors on cleared boxes marks exactly the failing fields; each present box then holds its field's error text from `Validate`, and a box is non-empty exactly when its input is marked |
| ContactPage.ContactForm.constructor | script.js:103-104 | a freshly loaded page: no input marked, every error box present and blank, the form shown and the success box hidden; markers and boxes agree |
| ContactPage.ContactForm.ClearErrors | script.js:148-160 | every input loses `error`, every error box present is blanked, no box is added or removed, visibility is untouched |
| ContactPage.ContactForm.ShowError | script.js:132-143 | the field gets `error`; its box, if the page has one, gets the text; nothing else changes |
| ContactPage.ContactForm.CheckFields | script.js:64-92 | the three if/else-if checks leave the error display that `showError` calls for the failing checks produce, and `isValid` is true iff no check failed |
| ContactPage.ContactForm.Submit | script.js:52-113 | after a submit, `isValid` holds iff `Validate` of the trimmed values is empty. The marked inputs are exactly the failing fields, and each box holds its own field's error or nothing, so, on markup where every `<field>Error` box has the `error-message` class, nothing from an earlier submit survives. The form is hidden, the success box (if present) shown and the alert raised with the trimmed name only when valid. Markers and box texts stay in agreement |
| Navigation.CurrentPage | script.js:193 | the current page is never empty and holds no `/`; it is `index.html` or a suffix of the pathname |
| Navigation.CurrentPageOfDirectory | script.js:193 | an empty pathname or one ending in `/` gives `index.html` |
| Navigation.CurrentPageOfFile | script.js:193 | any other pathname gives its longest `/`-free suffix, which is non-empty |
| Navigation.MarkActive | script.js:196-205 | afterwards a link is `active` iff its `href` equals the page; every other link has lost `active` |
| Navigation.HighlightCurrentPage | script.js:192-205 | the page used is `CurrentPage(pathname)`, and exactly the links whose `href` equals it are `active` |
| Navigation.ActiveLinkIsUnique | script.js:196-205 | when the links' `href`s are distinct, exactly one link is active if one points to the current page, and none otherwise |

## Left out

- Mobile menu toggling and the outside-click close (script.js:16-42): class flips that depend on the browser's `closest`, which is not part of this model.
- Smooth scrolling of in-page links (script.js:166-186): it relies on the browser's `querySelector` and `scrollIntoView` layout calls.
- Card hover transforms (script.js:211-223): they only set CSS strings.
- The console greeting (script.js:229-234), `showNotification` (script.js:244-248) `contactForm.reset()` (script.js:111) and `event.preventDefault()` (script.js:54). They are output or foreign browser calls; the default submission that `preventDefault` suppresses is never modelled. The alert text is returned by `Submit` as a value rather than shown, and the inputs are not modelled as state, so there is nothing for `reset` to clear.
- Event-listener registration and lookup by id. The handler becomes `Submit`, the page-load loop `HighlightCurrentPage`, and the raw values are parameters.
- The three inputs always exist in the model (the handler reads their values, so the page must have them), so `showError`'s `if (field)` guard is always taken. A missing error box is modelled: `ShowError` then leaves the boxes alone.
- ContactPage.ContactForm.ClearErrors and ContactPage.ContactForm.Submit: `showError` finds an input by its id and its box by the id `<field>Error` (script.js:133-134), while `clearErrors` unmarks every `input` and `textarea` and blanks every element with the class `error-message` (script.js:150-158). The model has one set of markers and one map of boxes that both operations use. It therefore assumes that the three fields are `input` or `textarea` elements and that every `<field>Error` element has the `error-message` class. On markup where a `<field>Error` box lacks that class, its old text would survive a resubmit, and `Submit`'s promise that each box holds only its own field's current error does not hold. The markup is not part of this model.
- ContactPage.ContactForm.constructor: the starting display (no input marked, every error box blank, the form shown, the success box hidden) is an assumption about the page markup, which is not part of this model; the script only implies that the success box starts hidden by showing it on success (script.js:103-104).
- `clearErrors` also clears any other `input`, `textarea` and `.error-message` element on the page. The model's page has just the three form inputs and their boxes.
- Character counts: JavaScript's `.length` counts UTF-16 code units, while the model counts Unicode scalar values (`|s|` on `seq<char>`). A name made of one character outside the Basic Multilingual Plane has length 2 in the browser and 1 here. A JavaScript string may also hold unpaired surrogate code units, which a `seq<char>` of Unicode scalar values cannot represent; such inputs are outside the model.
- Whitespace is JavaScript's WhiteSpace and LineTerminator set, written out in `Text.IsWhitespace`. This set is what both `trim` and `\s` use. It follows the current Unicode Space_Separator list, so older engines that counted U+180E differ.
- `CheckFields` is the middle part of the handler (script.js:64-92), split out of `Submit` as a method of its own so that each proof stays small. `Submit` calls it between clearing the errors and the success branch, so the order of effects is the handler's.
