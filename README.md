# Library client utilities, verified in Dafny

This project models the deterministic utilities that the library-management
web client exports. It covers the helpers module: paging, sorting and filtering
of lists, and due-date, overdue-day and fine arithmetic. It covers the
pagination component's window of page buttons and its Previous / Next rules.
It covers the form validators for e-mail, phone, ISBN, password, required
fields and numeric ranges.

These are exported building blocks. The screens of the client do not import
them. The return screen carries its own inline overdue-day computation
(library-frontend/src/components/circulation/ReturnManagement.jsx:51-56). The
borrow screen writes the 14-day loan period into its due-date display
(library-frontend/src/components/circulation/BorrowManagement.jsx:112). Those
inline copies are not part of this model. Borrowing, renewing, returning and
paying fines are decided by the server the client calls, and are not part of
it either.

Files, one module each:

- `wrappers.dfy` (`Wrappers`): `Option` and `Result`.
- `js_values.dfy` (`JsValues`): the JavaScript value semantics the helpers
  rely on. It covers truthiness, `toString()` of integers and booleans, ASCII
  `toLowerCase()`, the `\s` class, `trim()` and `includes()`.
- `helpers.dfy` (`Helpers`): `paginate`, `sortArray`, `filterArray`,
  `calculateDueDate`, `calculateOverdueDays` and `calculateFine`.
- `pagination.dfy` (`Pagination`): `getPageNumbers` and the component's
  hidden / Previous / Next rules.
- `validators.dfy` (`Validators`): every validator except `validateDate`.

Conventions:

- Timestamps are integer milliseconds, and a day is 86,400,000 ms.
- The current time is a parameter `now`.
- Money is integer cents: the default fee of 0.50 is `DefaultDailyFeeCents == 50`.
- `sortArray` sorts an `array` in place, as `Array.prototype.sort` does. Its
  algorithm here is an insertion sort, proved to return a permutation in
  the promised order.
- `getPageNumbers` is a method with the source's loop.
- Everything else is a function or predicate.
- Each regular expression is restated as its structure: runs of a
  character class, and the split points the match chooses. A lemma then
  characterises what the expression accepts.

## Model

| member | source | states |
|---|---|---|
| `Helpers.Slice` | library-frontend/src/utils/helpers.js:50 | `Array.prototype.slice`: never longer than the list; for `0 <= start <= end` it is the run of items from `start` to `end`, both clamped to the length; empty when `end <= start`, unless `start` is non-negative and `end` is negative (a negative end counts back from the length) |
| `Helpers.Paginate` | library-frontend/src/utils/helpers.js:47-50 | for `page >= 1` and `pageSize >= 0` the page is the slice from `min((page-1)*pageSize, len)` to `min(page*pageSize, len)`, at most `pageSize` items, empty once the start is past the end; page 0 is always empty |
| `Helpers.FirstPagesArePrefix` | library-frontend/src/utils/helpers.js:47-50 | pages 1..k laid end to end are exactly the first `min(len, k*pageSize)` items |
| `Helpers.PagesDisjoint` | library-frontend/src/utils/helpers.js:47-50 | an earlier page ends where or before a later page begins, so no item is on two pages |
| `Helpers.SortArray` | library-frontend/src/utils/helpers.js:18-32 | sorts in place and returns the same array; the contents are a permutation of the input; keys are non-decreasing for `'asc'` (the default) and non-increasing for any other direction, texts compared lower-cased |
| `Helpers.InsertIntoSorted` | library-frontend/src/utils/helpers.js:19 | one insertion step of the in-place sort keeps the items, extends the ordered prefix by one, and leaves every item after it where it was |
| `Helpers.Compare` | library-frontend/src/utils/helpers.js:19-31 | the comparator answers -1, 0 or 1, and 0 exactly when the two keys are equal after lower-casing texts |
| `Helpers.CompareAntisymmetric` | library-frontend/src/utils/helpers.js:19-31 | the comparator's answer for `(b, a)` is the negation of its answer for `(a, b)` |
| `Helpers.CompareTransitive` | library-frontend/src/utils/helpers.js:23-31 | "not after" under the comparator is transitive, in both directions and for lower-cased texts |
| `Helpers.AdjacentInOrderIsSorted` | library-frontend/src/utils/helpers.js:18-31 | an array whose neighbours are in comparator order has all its keys in the promised order |
| `Helpers.StrLessAsymmetric` | library-frontend/src/utils/helpers.js:28-29 | JavaScript `<` on strings never holds both ways |
| `Helpers.StrLessTransitive` | library-frontend/src/utils/helpers.js:28-29 | JavaScript `<` on strings is transitive |
| `Helpers.StrLessTotal` | library-frontend/src/utils/helpers.js:28-29 | of two different strings one is `<` the other |
| `Helpers.TestEntry` | library-frontend/src/utils/helpers.js:37-42 | a falsy filter value passes; a truthy one throws when the item's field is `null`/`undefined`, and otherwise passes iff the lower-cased field string contains the lower-cased value |
| `Helpers.TestItem` | library-frontend/src/utils/helpers.js:36-43 | the `every` over the filter entries throws iff an entry reached before any failing one throws; when it returns, it is true iff every entry is satisfied |
| `Helpers.FilterArray` | library-frontend/src/utils/helpers.js:34-45 | throws iff some item throws; otherwise returns an order-preserving subsequence holding every item that satisfies all entries, as many times as the input holds it, and no other item |
| `Helpers.FilterWithoutActiveFilters` | library-frontend/src/utils/helpers.js:37 | with no entries or only falsy values every item is returned unchanged, in order |
| `Helpers.FilterThrowsOnMissingField` | library-frontend/src/utils/helpers.js:39-42 | an item without the filtered field makes the filter throw `TypeError` |
| `Helpers.FilterArrayLenient` | library-frontend/src/utils/helpers.js:34-45 | the corrected filter never fails and returns an order-preserving subsequence of exactly the matching items, a missing field counting as a mismatch |
| `Helpers.MatchesLeniently` | library-frontend/src/utils/helpers.js:36-43 | an item matches iff it satisfies every filter entry |
| `Helpers.FilterArrayAgreesWhenNoThrow` | library-frontend/src/utils/helpers.js:34-45 | whenever the written filter returns, its result is the corrected filter's |
| `Helpers.CalculateDueDate` | library-frontend/src/utils/helpers.js:52-56 | the due date is a whole number of days, `loanPeriodDays` (14 by default), after the borrow date, at the same time of day |
| `Helpers.CeilDiv` | library-frontend/src/utils/helpers.js:62 | `Math.ceil(n / d)`: the least `q` with `n <= q*d` |
| `Helpers.CalculateOverdueDays` | library-frontend/src/utils/helpers.js:58-63 | never negative; 0 iff `now <= dueDate`; otherwise the number of started days since the due date, so any fraction of a day counts as one day |
| `Helpers.OverdueDaysPerFullDay` | library-frontend/src/utils/helpers.js:58-63 | from the due date on, each further full day adds exactly one overdue day |
| `Helpers.OverdueDaysMonotone` | library-frontend/src/utils/helpers.js:58-63 | overdue days never decrease as `now` advances |
| `Helpers.OverdueDaysOfLoan` | library-frontend/src/utils/helpers.js:52-63 | days overdue for a loan equal the started days it was kept minus the loan period, floored at 0 |
| `Helpers.CalculateFine` | library-frontend/src/utils/helpers.js:65-67 | no overdue days means no fine; the fine is never negative for a non-negative count and fee (default fee 50 cents) |
| `Helpers.FineMonotone` | library-frontend/src/utils/helpers.js:65-67 | for a non-negative fee, more overdue days never make a smaller fine |
| `Helpers.LateFineGrowsDaily` | library-frontend/src/utils/helpers.js:58-67 | the fine at `now` is 0 up to the due date and grows by exactly one daily fee per further full day |
| `Pagination.GetPageNumbers` | library-frontend/src/components/common/Pagination.jsx:5-21 | consecutive pages within `[1, totalPages]`; exactly `min(5, totalPages)` of them when `totalPages >= 1`, none otherwise; the first is `max(1, min(currentPage-2, totalPages-4))`; they contain `currentPage` when it is in range and are centred on it when `3 <= currentPage <= totalPages-2` |
| `Pagination.Render` | library-frontend/src/components/common/Pagination.jsx:23-54 | nothing is shown iff `totalPages <= 1`; Previous asks for `currentPage-1` and is disabled iff `currentPage == 1`; Next asks for `currentPage+1` and is disabled iff `currentPage == totalPages`; the buttons are the consecutive window `getPageNumbers` gives, starting at `max(1, min(currentPage-2, totalPages-4))`, `min(5, totalPages)` of them, all in `[1, totalPages]`; exactly the button for `currentPage` is highlighted |
| `Validators.ValidateEmail` | library-frontend/src/utils/validators.js:2-5 | accepted iff no whitespace, exactly one `@`, a non-empty part before it, and a `.` in the domain that is neither its first nor its last character |
| `Validators.ValidatePhone` | library-frontend/src/utils/validators.js:7-10 | an accepted number has at least ten characters, and every character after the first is a digit, whitespace, `-`, `(` or `)` |
| `Validators.ValidatePhoneShape` | library-frontend/src/utils/validators.js:7-10 | accepted iff after an optional leading `+` at least ten characters remain, each a digit, whitespace, `-`, `(` or `)`; ten spaces pass |
| `Validators.StripSeparators` | library-frontend/src/utils/validators.js:15 | the result holds no `-` or whitespace character and is no longer than the input |
| `Validators.StripKeepsOthers` | library-frontend/src/utils/validators.js:15 | a character is in the result iff it is in the input and is neither `-` nor whitespace |
| `Validators.StripConcat` | library-frontend/src/utils/validators.js:15 | removing separators from a concatenation removes them from each part |
| `Validators.StripInserted` | library-frontend/src/utils/validators.js:15 | a separator inserted between two parts disappears when separators are removed |
| `Validators.ValidateISBN` | library-frontend/src/utils/validators.js:12-16 | an accepted ISBN has at least ten characters, and without its hyphens and whitespace exactly 10 or 13 |
| `Validators.ValidateIsbnIgnoresSeparator` | library-frontend/src/utils/validators.js:12-16 | inserting a hyphen or whitespace anywhere never changes the ISBN verdict |
| `Validators.ValidateIsbnOfStripped` | library-frontend/src/utils/validators.js:15 | stripping separators beforehand never changes the ISBN verdict |
| `Validators.ValidateIsbnCases` | library-frontend/src/utils/validators.js:14 | nine digits followed by a digit or `X` pass, followed by a lower-case `x` fail; no check digit is computed |
| `Validators.ValidatePasswordExtends` | library-frontend/src/utils/validators.js:18-20 | no password of five characters or fewer is accepted, six characters suffice, and adding characters never invalidates a password |
| `Validators.ValidatePassword` | library-frontend/src/utils/validators.js:18-20 | the length test `password.length >= 6`; its threshold and monotonicity are stated by `Validators.ValidatePasswordExtends` |
| `Validators.ValidateRequired` | library-frontend/src/utils/validators.js:22-24 | an accepted value is neither `null` nor `undefined` and has a non-empty text form |
| `Validators.ValidateRequiredCases` | library-frontend/src/utils/validators.js:22-24 | a text passes iff it has a non-whitespace character, a number iff it is not 0, a boolean iff it is true; `null` and `undefined` never do |
| `Validators.ValidateNumber` | library-frontend/src/utils/validators.js:30-36 | accepted iff not `NaN` and within each given bound, infinities included (a missing bound imposes nothing) |
| `Validators.ValidateNumberRange` | library-frontend/src/utils/validators.js:30-36 | loosening or dropping a bound never rejects an accepted number |
| `JsValues.Truthy` | library-frontend/src/utils/validators.js:23 | JavaScript truthiness; a truthy value is never `null` or `undefined`, so `value.toString()` is safe after `value &&` |
| `JsValues.ToString` | library-frontend/src/utils/helpers.js:39 | `toString()` of a field: a text is itself; a boolean or integer gives a non-empty text that starts with `-` exactly for a negative integer; an integer's text has only digits after its first character |
| `JsValues.Includes` | library-frontend/src/utils/helpers.js:42 | `includes()`: the empty string is included in every string; an included string is no longer than the one that includes it; a string that starts or ends the other is included |
| `JsValues.Trim` | library-frontend/src/utils/validators.js:23 | `trim()` yields the block of the string between its leading and trailing whitespace, empty iff the string is all whitespace |
| `JsValues.NatToStringRoundTrip` | library-frontend/src/utils/helpers.js:39 | the decimal text `toString()` writes for an integer field reads back as that integer |
| `JsValues.IntToStringInjective` | library-frontend/src/utils/helpers.js:39 | different integers have different decimal texts |
| `JsValues.Lower` | library-frontend/src/utils/helpers.js:39-40 | `toLowerCase()` keeps the length and maps each character to its lower-case form |

## Findings

| source | as written | input that shows it | evidently intended | confidence | as-written member | corrected member |
|---|---|---|---|---|---|---|
| library-frontend/src/utils/helpers.js:39-42 | `item[key]?.toString().toLowerCase()` is `undefined` when the field is missing or `null`, and `itemValue.includes(...)` then throws `TypeError` | `filterArray([{}], { title: 'dune' })` | the optional chaining shows that a missing field was meant to be tolerated; the item should simply not match | medium, not executed | `Helpers.FilterThrowsOnMissingField` (on `Helpers.FilterArray`) | `Helpers.FilterArrayLenient` |

## Left out

- Borrow, renew, return and fine payment, available-copy counts and renewal limits: these are decided by the server. The client only sends requests (library-frontend/src/services/circulationService.js:5-42).
- `debounce` and `generateId`: they depend on timers, `Date.now` and `Math.random`.
- `validateDate`: it depends on the host's `Date.parse`.
- Rendering, routing, contexts, hooks and HTTP services: these are UI and I/O.
- Helpers.CalculateDueDate: the source's `setDate` adds local calendar days. Across a daylight-saving change such a day is not 86,400,000 ms. The model uses fixed-length days.
- Helpers.CalculateOverdueDays: the source reads the clock with `new Date()`, which here is the parameter `now`. An unparsable due date would give `NaN`; timestamps here are always integers. The float division before `Math.ceil` is taken as exact.
- Helpers.CalculateFine: the fee and the fine are integer cents, not floating-point amounts. A fee such as 0.10 would pick up float rounding in the source; the model has none.
- Helpers.SortArray: stability is not stated. Keys are texts or integers only. All keys must be of one kind, because with mixed kinds the comparator throws (`toLowerCase` on a number) or is inconsistent, and the resulting order is not defined by the ECMAScript standard.
- JavaScript numbers are IEEE doubles; here they are unbounded integers (`JsValue.Int`, `SortKey.Number`). Above 2^53 distinct integers collapse into one double, which changes the `<` that `sortArray` uses. From 10^21 on `toString()` writes exponent form (`1e+21`), while `JsValues.IntToString` writes every digit; this changes what `filterArray` matches. Neither is modelled.
- Helpers.FilterArray: numeric fields are integers of any size (see the line above). Object-valued fields and `null` items are not modelled.
- JsValues.Lower: only `A`-`Z` are folded; JavaScript folds all of Unicode.
- Strings are sequences of Unicode scalar values, not UTF-16 code units. Password length and the string `<` therefore differ from JavaScript for characters outside the Basic Multilingual Plane.
- Validators.ValidateNumber: it takes the already-converted `Number(value)`. String-to-number parsing is host behaviour and is not part of this model. Bounds are numbers or absent.
- Validators.ValidatePassword: its body is the source's one-line length test, so it carries no contract of its own. Its threshold and monotonicity are stated by `Validators.ValidatePasswordExtends`.
- Validators.ValidateRequired: JavaScript returns the falsy value itself, not `false`. The model gives its truthiness.
- Pagination.Render: `onPageChange` is represented by the page number each button asks for. CSS class names are not modelled. Page numbers are integers.
