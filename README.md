# Volunteer portal front end: router, templates and form validation

This project models the logic at the heart of the portal's single-page
script `app.js` and proves properties of it in Dafny. The model covers:

- **Routing.** The route table maps a location hash to the HTML fragment
  to load, falling back to the entry for the empty hash. An empty
  `location.hash` is first read as `#/`. Clicks on old-style `*.html`
  links are turned into hashes by a chain of `includes` tests in which
  later tests override earlier ones.
- **Templates.** `renderTemplate` replaces each `{{ key }}` placeholder,
  the pattern `{{\s*(\w+)\s*}}`, by `data[key]`, or by the empty string
  when that lookup is `undefined`. The global regular-expression replace
  is modelled as a left-to-right scanner that reads the template into
  kept characters and placeholders.
- **Validation.** `validateVolunteerForm` clears the error markers of the
  present fields and runs nine field rules in a fixed order, never
  stopping at the first failure. It then marks every error whose field is
  present and returns `{valid, data, errors}`. Its helpers are modelled too:
  - `onlyDigits`, a digit filter;
  - `validateEmail`, an unanchored search for `\S+@\S+\.\S+`;
  - the age computation;
  - `setFieldError`/`clearFieldError`, as a class whose fields hold the
    marker state.

## Modules

- `Wrappers`: the `Option` type.
- `JsString`: the ECMAScript pieces the script uses.
  - The whitespace class shared by `\s` and `String.prototype.trim`.
  - The ASCII classes `\d` and `\w`.
  - `trim`, `includes` and `endsWith`.
- `JsObject`: property lookup on a plain object literal.
  - `Get` is the definition of `obj[key]`: the own value when `key` is an
    own key, else the inherited member when `key` names one of
    `Object.prototype` (`constructor`, `toString`, `__proto__`, …), else
    `undefined`.
  - Also JavaScript truthiness and string conversion of the values found.
- `Router`: the route table, `routes[hash] || routes['']`, the
  normalisation of the empty hash, and the legacy-link translation.
- `Template`:
  - the placeholder pattern, stated as a predicate;
  - the scanner, `MatchAt`/`Scan`;
  - `renderTemplate`, both as written and as intended (see Findings). The
    intended replacement, `Replacement`, is the definition "the data's own
    value for the key, or `''` when the key is absent"; the as-written one,
    `ReplacementAsWritten`, converts whatever `Get` finds to text.
- `FormRules`: the nine rules as pure functions, and the error list a
  validation pass reports, `ExpectedErrors`.
- `ErrorMarkers`: the per-field marker state.
  - The class `FieldMarkers` has the methods `SetFieldError` and
    `ClearFieldError`.
  - The functions `SetMark`/`ClearMark` specify them.
- `Validation`: the imperative validation pass, which updates a
  `FieldMarkers` object in place.

Host services become inputs. The date parser `new Date(value)`, with its
`isNaN(getTime())` test, is a function `parse: string -> Option<Date>`.
The clock `new Date()` is a `today: Date`. A form element that
`querySelector` does not find is a `None` field of the `Snapshot`.

The state (UF) rule is modelled as the code states it:
- it fails unless the value holds at least one digit **and** is exactly
  two characters long once trimmed;
- so `"12"` is accepted, while `"SP"`, `"S"` and `"SPX"` are rejected;
- no two-letter code is ever accepted (`FormRules.StateRuleRejectsLetterCodes`).

This contradicts the rule's own message, "Informe UF (2 letras)". The
model keeps the code's behaviour and does not correct it.

## Model

| member | source | states |
|---|---|---|
| JsString.TrimStart | app.js:122 | the kept part is a suffix, the dropped prefix is all whitespace, and the kept part does not start with whitespace |
| JsString.TrimEnd | app.js:122 | the kept part is a prefix, the dropped suffix is all whitespace, and the kept part does not end with whitespace |
| JsString.TrimIsStrippedCore | app.js:122 | `trim` returns the contiguous middle of the value with whitespace-only ends cut away, and that middle starts and ends with non-whitespace |
| JsString.TrimEmptyIff | app.js:122 | `!v.trim()` holds exactly when the value is all whitespace |
| JsString.Trim | app.js:122 | `trim` never lengthens its value and leaves no whitespace at either end |
| JsString.TrimKeepsUnpadded | app.js:149 | a value with no whitespace at either end is its own trim |
| JsString.AllSpaceConcat | app.js:122 | a concatenation is all whitespace exactly when both parts are |
| JsObject.ToText | app.js:11 | an inherited member converts to a non-empty text, as the host prints a function or `[object Object]` |
| Router.Resolve | app.js:15 | `routes[hash] \|\| routes['']` always yields a truthy value to fetch, and any text it yields is one of the table's files |
| Router.CurrentHash | app.js:40 | `location.hash \|\| '#/'` is never empty and keeps any non-empty hash |
| Router.RouteKeysAreLocationHashes | app.js:3-8 | every route key is a value `location.hash` can take (empty or starting with `#`) |
| Router.KnownHashLoadsItsFile | app.js:3-15 | a hash in the table loads its own file, since every file name is truthy |
| Router.UnknownHashFallsBack | app.js:15 | any other hash loads the same file as `''`, which is `index.html` |
| Router.RouteChangedLoadsTableFile | app.js:39-41 | the file `routeChanged` loads is the table's file for the hash, or `index.html`, and an empty hash loads `index.html` |
| Router.LegacyTarget | app.js:51-56 | every hash a clicked link is translated to is a key of the route table |
| Router.LegacyTargetPriority | app.js:51-56 | exactly the `.html` links are intercepted; `index` wins over `cadastro`, which wins over `projeto`, and otherwise the link goes to `#/` |
| Router.LegacyTargetIsRoute | app.js:51-57 | every translated link is a key of the route table and loads that key's own file |
| Router.CadastroLinkOpensRegistration | app.js:55 | an `.html` link naming `cadastro` but not `index` opens `#/cadastro`, which loads `cadastro.html` |
| Router.LegacyLinksToRouteFiles | app.js:51-57 | the links to the three page files translate to their own routes |
| Template.MatchAt | app.js:11 | a match of `{{\s*(\w+)\s*}}` spans at least five characters and captures a non-empty key |
| Template.Scan | app.js:11 | the global replace reads at least one character per piece, so it yields no more pieces than characters, and at least one piece for any non-empty text |
| Template.RenderAsWritten | app.js:10-11 | as written, with `{}` every placeholder is deleted and every other character kept, provided no placeholder names an `Object.prototype` member |
| Template.RenderTemplate | app.js:10-11 | as intended, with `{}` every placeholder is deleted and every other character kept |
| Template.MatchAtSound | app.js:11 | whatever the scanner matches at an index is a `{{\s*(\w+)\s*}}` placeholder with the captured key |
| Template.MatchAtComplete | app.js:11 | a placeholder starting at an index is exactly what the scanner matches there, so matches are unique |
| Template.PlaceholderSlice | app.js:11 | a placeholder inside a text is a placeholder on its own |
| Template.ScanStep | app.js:11 | each scan step reads one character or one placeholder, moves past it, and its text is the span it covers |
| Template.ScanRoundTrip | app.js:11 | the scanned pieces spell out the template exactly, so nothing is lost or reordered |
| Template.ScanHolesArePlaceholders | app.js:11 | every hole the scan reports is a placeholder for its key |
| Template.ScanAtPlaceholder | app.js:11 | where a placeholder starts, the scan reads it whole and resumes behind it |
| Template.ScanAtLiteral | app.js:11 | where no placeholder starts, the scan keeps the character and moves on by one |
| Template.ScanWholePlaceholder | app.js:11 | a text that is one placeholder is scanned as one hole |
| Template.FillScanWithoutPlaceholders | app.js:10-11 | filling the scan of a text that holds no placeholder gives back the text |
| Template.RenderWithoutPlaceholders | app.js:10-11 | a template with no placeholder is returned unchanged, as written and as intended, whatever the data |
| Template.FillEmptyIsLiterals | app.js:11 | as intended, with an empty mapping every hole becomes the empty string |
| Template.EmptyMappingDeletesPlaceholders | app.js:26 | as intended, rendering with `{}` cuts every placeholder out and keeps every other character |
| Template.FillAgrees | app.js:11 | two replacements that agree on every key present give the same result |
| Template.AsWrittenAgreesOffPrototypeNames | app.js:11 | as written and as intended agree unless a placeholder names an `Object.prototype` member |
| Template.PrototypeKeySurvivesEmptyMapping | app.js:11 | as written, `{{constructor}}` and the other inherited names render to a non-empty text with `{}`; as intended they are deleted |
| Template.InheritedKeyIsPrinted | app.js:11 | as written, an inherited name's replacement with `{}` is non-empty |
| Template.BracedWordIsPlaceholder | app.js:11 | `{{word}}` is a placeholder for `word` |
| Template.ScanExample | app.js:11 | `a{{ k }}b` is scanned as `a`, one placeholder for `k`, and `b` |
| Template.SubstitutesValue | app.js:11 | `a{{ k }}b` renders to `aVb` with `k` bound to `V`, and to `ab` with no binding |
| FormRules.OnlyDigits | app.js:104 | the result is no longer than the input and holds digits only |
| FormRules.OnlyDigitsAppend | app.js:104 | filtering distributes over concatenation, so digits keep their order and nothing else survives |
| FormRules.OnlyDigitsKeepsDigits | app.js:104 | a text is its own filter exactly when it is all digits |
| FormRules.OnlyDigitsIdempotent | app.js:104 | filtering twice is filtering once |
| FormRules.OnlyDigitsEmptyIff | app.js:104 | no digit survives exactly when the text has no digit |
| FormRules.DomainFromIff | app.js:102 | the domain search succeeds exactly when a `\S+\.\S+` tail follows |
| FormRules.EmailFromIff | app.js:102 | the search from an index succeeds exactly when some match of `\S+@\S+\.\S+` has its `@` at or after that index |
| FormRules.ValidateEmail | app.js:101-103 | `validateEmail` holds exactly when some part of the value matches `\S+@\S+\.\S+`, anywhere in the value |
| FormRules.AgeInYears | app.js:133-137 | the age is the number of the last birthday that has come: that birthday is on or before today and the next one is after it |
| FormRules.AgeCountsBirthdays | app.js:133-137 | the age is at least `n` exactly when the `n`-th birthday has come |
| FormRules.AgeAcceptedIff | app.js:133-141 | the age is accepted exactly from the 18th birthday up to the day before the 91st |
| FormRules.AgeBoundaries | app.js:139 | the 18th and 90th birthdays are accepted; the day before the 18th and the 91st birthday are not |
| FormRules.BirthDateErrorsExclusive | app.js:126-145 | "required" is reported exactly for a missing or empty value, "invalid" exactly for an unparseable one, and "age" exactly for a parsed date out of range; the three messages are distinct |
| FormRules.Rank | app.js:120 | each field has one position in the fixed field order |
| FormRules.CollectRanked | app.js:122-149 | running rules over fields in increasing order reports errors in increasing field order |
| FormRules.CollectMembership | app.js:122-149 | an error is reported for a field in the list exactly when its rule fails with that message |
| FormRules.FieldOrderRanked | app.js:120 | the field order lists each field once, in increasing rank |
| FormRules.ExpectedErrors | app.js:122-149 | the list of reported errors comes in the order nome, email, cpf, telefone, nascimento, endereco, cep, cidade, estado, at most one per field and at most nine |
| FormRules.ErrorReportedIff | app.js:122-149 | a field is reported with a message exactly when its rule fails with that message, whatever the other rules do |
| FormRules.MissingFieldReported | app.js:122-149 | a missing element is always reported |
| FormRules.NoErrorsIff | app.js:154 | the error list is empty exactly when every rule passes |
| FormRules.DigitRulesIgnoreFormatting | app.js:104 | inserting non-digit characters anywhere in a value leaves its digits, and so the outcome of every digit-count rule, unchanged |
| FormRules.MaskedCpfAccepted | app.js:124 | a CPF typed with its mask `ddd.ddd.ddd-dd` passes the 11-digit rule |
| FormRules.DigitRuleExamples | app.js:124-147 | too few digits fail (`12345678` as a CPF, `(11) 9876-543` as a phone), and so does a missing CEP |
| FormRules.StateRuleIff | app.js:149 | a state value is accepted exactly when it trims to two characters and holds a digit |
| FormRules.StateRuleRejectsLetterCodes | app.js:149 | no value that trims to two non-digits, e.g. any two-letter code, is accepted |
| FormRules.StateRuleAcceptsTwelve | app.js:149 | `"12"` is accepted |
| FormRules.StateRuleRejectsExamples | app.js:149 | `"SP"`, `"S"`, `"SPX"` and a missing element are rejected |
| FormRules.LettersHaveNoDigits | app.js:149 | a value of capital letters only is rejected |
| FormRules.TooShortForState | app.js:149 | a value shorter than two characters is rejected |
| FormRules.TooLongForState | app.js:149 | a three-character value without padding is rejected |
| ErrorMarkers.SetMark | app.js:79-91 | the field shows the message and is flagged; an existing marker is rewritten, and a new one is added only when there is none; other fields are untouched; at most one marker per field is kept |
| ErrorMarkers.ClearMark | app.js:92-99 | the field is unflagged and its first marker is removed; other fields are untouched; a well-formed state is left with no message on the field |
| ErrorMarkers.FieldMarkers.SetFieldError | app.js:79-91 | updates the object in place to `SetMark` of its old state and keeps it well formed |
| ErrorMarkers.FieldMarkers.ClearFieldError | app.js:92-99 | updates the object in place to `ClearMark` of its old state and keeps it well formed |
| ErrorMarkers.ClearPresent | app.js:120 | the clearing loop keeps at most one marker per field and leaves the fields the form lacks as they were |
| ErrorMarkers.MarkErrors | app.js:152 | the marking loop keeps at most one marker per field and leaves the fields the form lacks as they were |
| ErrorMarkers.AfterValidation | app.js:120-152 | a whole pass keeps at most one marker per field and leaves the fields the form lacks as they were |
| ErrorMarkers.ClearPresentEffect | app.js:120 | the clearing loop removes the marker of every present field it visits and leaves every other field as it was |
| ErrorMarkers.MarkErrorsEffect | app.js:152 | the marking loop leaves each present field showing only the last message reported for it, and every other field as it was |
| ErrorMarkers.AfterValidationEffect | app.js:120-152 | after a pass each present field shows exactly the message reported for it, or nothing; missing fields keep their state; no field has two markers |
| ErrorMarkers.RevalidationIsIdempotent | app.js:120-152 | validating again with the same outcome leaves the markers unchanged, so markers never pile up |
| ErrorMarkers.MessageForIsReported | app.js:152 | the message a field ends up with is one reported for it, and every reported field gets one |
| ErrorMarkers.MarkersShowRuleMessages | app.js:120-152 | after validating a form, each present field shows its own rule's message, or nothing when the rule passes, with at most one marker |
| Validation.ExpectedErrorsUnrolled | app.js:122-149 | the error list is the nine rules' contributions concatenated in field order |
| Validation.BirthDateCheck | app.js:126-145 | the birth-date rule with its `age--` correction reports what the rule states; it passes exactly from the 18th birthday to the day before the 91st |
| Validation.ApplyRule | app.js:122-149 | running one field's rule appends exactly that rule's error, if any |
| Validation.RunRules | app.js:122-149 | the nine `if … errors.push` statements build exactly the specified error list |
| Validation.ClearPresentMarkers | app.js:120 | the clearing loop over the nine elements leaves the markers as `ClearPresent` states |
| Validation.MarkReportedErrors | app.js:152 | the marking loop leaves the markers as `MarkErrors` states |
| Validation.FormEntries | app.js:157-158 | `data` holds the value of exactly the fields the form has |
| Validation.ValidateVolunteerForm | app.js:106-161 | the errors are the specified list; `valid` iff no error; `data` is the form's values when valid and empty otherwise; the markers end as `AfterValidation` and stay well formed |
| Validation.EmptyFormFailsEveryRule | app.js:122-149 | a form with none of its elements reports all nine errors, in field order, with "birth date required" for the date |

## Left out

- Fetching and swapping in the route's fragment: `fetch`, `DOMParser`,
  `innerHTML` and `document.title` in `loadRoute` (app.js:17-32) are
  network and DOM I/O. Only the table lookup is modelled.
- Route loads are asynchronous, and a late response can overwrite a newer
  one. This is concurrency with no ordering in the code to model.
- Browser plumbing is not modelled: the event-listener wiring in
  `attachNavInterception`, `enhanceUI` and `boot`, and
  `history.pushState`/`replaceState`. The `input` listener's call to
  `clearFieldError` is covered by `ErrorMarkers.ClearMark`.
- The navigation menu's open/closed toggle is a UI switch with no logic
  to verify.
- `showToast` and its timers, the success message, `form.reset()` and
  `scrollIntoView` are cosmetic, timed UI.
- `new Date(value)` and `new Date()` are host services. They are the
  inputs `parse` and `today`. Their months count from 0, which cancels out
  in the month difference.
- `Validation.FormEntries`: `FormData` enumerates every named control of
  the form. The model copies the nine tracked fields, keyed by field, and
  does not model untracked controls or names that repeat.
- `ErrorMarkers.FieldMarkers`: markers are kept per field, which assumes
  each input has its own `.form-group`. Two inputs sharing one group, which
  would share one marker, are not modelled.
- The `if(!group) return` branch is not modelled. An element found inside
  a form always has a parent, so `group` is never null here.
- `Router.UnknownHashFallsBack`: stated only for hashes that do not name
  an `Object.prototype` member. `Resolve` models such a hash as JavaScript
  does: it finds the inherited member, which is truthy, and does not fall
  back. `location.hash` always starts with `#`, so it never names one
  (`Router.RouteKeysAreLocationHashes`, `Router.RouteChangedLoadsTableFile`).
- Characters are Unicode scalar values. JavaScript splits a character
  outside the Basic Multilingual Plane into two UTF-16 code units, and
  counts both in `.length`, which the state rule uses. The model counts
  such a character once. No case folding or normalisation happens in
  either.
- `JsObject.ToText`: only the empty-or-not outcome of converting an
  inherited member to text is used. The exact text the host prints for a
  native function is not.

## Findings

| source | as written | input that shows it | evidently intended | confidence | as-written member | corrected member |
|---|---|---|---|---|---|---|
| app.js:11 | `data[key] !== undefined` also finds members inherited from `Object.prototype`, so a placeholder naming one of them is replaced by that member's text | `renderTemplate('{{constructor}}', {})`, as called at app.js:26, yields the text of the `Object` function instead of `''` | only the data's own keys are substituted, and every other placeholder is deleted | high, not executed | Template.PrototypeKeySurvivesEmptyMapping | Template.EmptyMappingDeletesPlaceholders |
