# Quote generator: the quote store

This project models the data logic of the quote generator page in
`dom-manipulation/script.js`. The page keeps a module-level list of
`{text, category}` quote records. It starts with three records. A form handler
(`addQuote`) trims the two typed values and appends a record only when both are
non-empty. A button handler (`displayRandomQuote`) picks a record at index
`Math.floor(Math.random() * quotes.length)`.

Files:

- `trim.dfy`, module `JsTrim`: ECMAScript's `String.prototype.trim` over strings of code
  points. It strips the characters of the WhiteSpace and LineTerminator productions (sections
  12.2 and 12.3 of ECMA-262, 2023 edition). The module proves that trim keeps a slice of its input
  with only whitespace outside it and none at its ends, that this slice is unique, that trim is
  idempotent, and that trim yields the empty string exactly for all-whitespace input.
- `quotes.dfy`, module `QuoteGenerator`:
  - the `Quote` record and the initial list;
  - the class `QuoteStore`, whose `quotes: seq<Quote>` field is the page's mutable list;
  - `AddQuote`, the form handler, which updates the list in place;
  - `DisplayRandomQuote`, the index selection;
  - the specification functions `NewQuote`, `AfterAdd` and `AfterAdds` (one submission, and a
    sequence of submissions), with lemmas about them.

The store invariant (`StoreInvariant`, which is `QuoteStore.Valid`) says two things. The list
still begins with the three initial records. Every record in it has non-empty text and category
with no surrounding whitespace. Each submission keeps the invariant, so the list is never empty
and the index of the button handler always names a record.

## Model

| member | source | states |
|---|---|---|
| `QuoteGenerator.InitialQuotes` | dom-manipulation/script.js:2-6 | the page starts with exactly three records, each with non-empty, trimmed text and category |
| `QuoteGenerator.QuoteStore.constructor` | dom-manipulation/script.js:2-6 | a new store holds the initial list and satisfies the store invariant |
| `QuoteGenerator.InvariantNonEmpty` | dom-manipulation/script.js:2-6 | a list satisfying the invariant has at least three records, and the first three are the initial ones |
| `QuoteGenerator.NewQuote` | dom-manipulation/script.js:33-36 | a submission yields a record exactly when neither raw value is all whitespace; that record is the pair of trimmed values and is well formed |
| `QuoteGenerator.AfterAdd` | dom-manipulation/script.js:33-37 | the list gains the pair of trimmed values when neither is blank, and is unchanged otherwise; the old list is always a prefix of the new one |
| `QuoteGenerator.AddPreservesInvariant` | dom-manipulation/script.js:32-44 | one submission keeps the invariant and keeps the old list as a prefix; it grows the list by one when both values are not blank, and by zero otherwise |
| `QuoteGenerator.AddDropsPadding` | dom-manipulation/script.js:33-37 | whitespace typed around non-empty trimmed values is dropped, and exactly the record of those values is appended |
| `QuoteGenerator.AddRejectsExamples` | dom-manipulation/script.js:36-43 | submitting `("", "x")`, `("x", "")`, `("x", " \t ")` or `("", "")` leaves the list unchanged |
| `QuoteGenerator.QuoteStore.AddQuote` | dom-manipulation/script.js:32-44 | the handler reports `QuoteAdded` exactly when both trimmed values are non-empty; then the list grows by one, the old list is a prefix, and the last record is the trimmed pair; otherwise it reports `MissingField` and the list is unchanged; the invariant is kept |
| `QuoteGenerator.SessionPreservesInvariant` | dom-manipulation/script.js:2-37 | over any sequence of submissions, the invariant holds, the list only grows, earlier records keep their places, and the length rises by the number of accepted submissions |
| `QuoteGenerator.SessionRecordsOrigin` | dom-manipulation/script.js:2-37 | every record after a sequence of submissions is an earlier record or the record of one accepted submission |
| `QuoteGenerator.RandomIndex` | dom-manipulation/script.js:10 | `floor(r * n)` for `r` in `[0, 1)` lies in `[0, n)` when `n > 0`, and is the integer part of `r * n` |
| `QuoteGenerator.RandomIndexReachesEvery` | dom-manipulation/script.js:10 | every index below `n` is drawn for some random number in `[0, 1)`, namely `i / n` |
| `QuoteGenerator.QuoteStore.DisplayRandomQuote` | dom-manipulation/script.js:9-11 | on a valid store, the selected index is within bounds and is `floor(r * length)`; the quote read is the record at that index, so it belongs to the list |
| `JsTrim.IsWhitespace` | dom-manipulation/script.js:33-34 | the WhiteSpace and LineTerminator code points that trim strips |
| `JsTrim.WhitespaceInBasicPlane` | dom-manipulation/script.js:33-34 | every character trim strips lies in the Basic Multilingual Plane, so it is a single UTF-16 code unit |
| `JsTrim.TrimStart` | dom-manipulation/script.js:33-34 | the result is a suffix of the input; everything removed is whitespace; the result does not start with whitespace |
| `JsTrim.TrimEnd` | dom-manipulation/script.js:33-34 | the result is a prefix of the input; everything removed is whitespace; the result does not end with whitespace |
| `JsTrim.Trim` | dom-manipulation/script.js:33-34 | the result is a slice of the input with only whitespace before and after it and none at its own ends |
| `JsTrim.TrimUnique` | dom-manipulation/script.js:33-34 | any slice with only whitespace outside it and none at its ends is the result of trim, so the specification above determines trim |
| `JsTrim.TrimOfTrimmed` | dom-manipulation/script.js:33-34 | trim leaves an already trimmed string unchanged |
| `JsTrim.TrimIdempotent` | dom-manipulation/script.js:33-34 | trimming twice equals trimming once |
| `JsTrim.TrimEmptyIff` | dom-manipulation/script.js:33-36 | trim yields the empty string, which makes the handler's check fail, exactly when the input is all whitespace |
| `JsTrim.TrimOfPadded` | dom-manipulation/script.js:33-34 | trim removes exactly the whitespace padding around a trimmed value |

## Left out

- DOM access is not modelled. This covers reading the two input fields, writing the quote into
  `quoteDisplay` with `innerHTML`, and the click listener. The field values are the parameters of
  `AddQuote`, and `DisplayRandomQuote` returns the record instead of rendering it.
- `alert` notifications are not modelled. The two alerts map to the result `QuoteAdded` or
  `MissingField`; their wording is not kept.
- Clearing the input fields after a successful add is not modelled, because it is page state,
  not store state.
- `createAddQuoteForm` and its call at page load are not modelled, because they only generate
  HTML for the form.
- `Math.random()` is not modelled: the random number is a parameter `r` with `0 <= r < 1`.
- RandomIndex: it computes `floor(r * n)` over exact reals, not IEEE-754 doubles. Rounding of the
  floating-point product is not modelled.
- Strings are sequences of Unicode code points, not UTF-16 code units. Every character trim
  strips is in the Basic Multilingual Plane (`WhitespaceInBasicPlane`), so trimming behaves the
  same either way.
- Synchronisation with a remote list, local-storage persistence, category filtering, quote
  identifiers and JSON export are not part of this model, because `dom-manipulation/script.js`
  contains none of them.
