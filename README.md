# Currency converter state model

A Dafny model of the top-level `App` component of a small React currency
converter. The component holds a five-field state (`open`, `baseAmount`,
`baseAmountSubmitted`, `currency`, `inputSearch`). Its child components call
five handlers that each replace one field. After every re-render a hook sets
the page title, but only when the selected currency changed. Two values are
derived on each render: the list of currencies filtered by the search box, and
the submitted amount converted at the selected currency's rate.

The model has three modules:

- `Text` (`text.dfy`): character-level versions of the JavaScript string
  operations the filter uses. `Trim` strips the ECMAScript whitespace and line
  terminators. `Lower` lower-cases the ASCII letters. `Includes` is substring
  search, proved equal to "some position starts an occurrence".
- `Catalog` (`catalog.dfy`): the currency records, the search filter and the
  find-first lookup by name, with their lemmas (membership, order, length,
  idempotence, first-match lookup).
- `Converter` (`converter.dfy`): class `App` with the state fields as mutable
  fields, one method per handler, the mount and update hooks, and a ghost log
  `titles` that records every write of the page title. `Valid()` says that
  the log is non-empty, that its last entry names the current currency,
  that no title is written twice in a row, and that the current currency is in
  the catalog. `Session` is a client that runs sample
  scenarios on a two-entry sample catalog (dollar at 1.1, yen at 130): 1 → 1.1,
  submit 5 in yen → 650, search "yen", and a NaN amount. These rates are
  sample values, not the bundled data.

Design decisions:

- Amounts are `Number = Finite(real) | NaN`. The amount input passes
  `parseFloat` of the typed text to `setBaseAmount`, and that can be NaN.
- The constructor is the state initialiser followed by the first mount hook.
  So a new `App` has already written one title, `"Converter - United States Dollar"`.
- React runs the update hook after every `setState`, so every handler ends by
  calling `ComponentDidUpdate` with the currency it saw before the change.
  Each handler is one atomic step on the state before the call.
- The filter tests the lower-cased name against the lower-cased **untrimmed**
  search text. Trimming only decides whether to filter at all. So `"yen "`
  with a trailing space is a non-blank search that matches no "… Yen" name.
- Every render calls `computeAmount`, which reads `.rate` of the `find`
  result, and that throws when no entry has the selected name. A render that
  throws is abandoned, so neither title hook runs after it. The model therefore
  makes "the selected currency is in the catalog" part of `Valid()`. The
  constructor requires the catalog to hold "United States Dollar", and
  `SetCurrency` requires the new name to be in the catalog. The list is the only
  caller of `setCurrency`, and `ShownEntriesResolve` proves that every name it
  offers meets this requirement. `ComputeAmount` requires only the membership
  fact, which `Valid()` supplies.

## Model

| member | source | states |
|---|---|---|
| `Text.Trim` | src/components/App/index.js:154 | `trim()` gives the empty string exactly when the text is all whitespace; otherwise the substring of it that starts and ends with non-whitespace, with only whitespace before and after it |
| `Text.Lower` | src/components/App/index.js:158-159 | `toLowerCase()` keeps the length and lowers every character by `LowerChar` |
| `Catalog.Matches` | src/components/App/index.js:157-160 | an entry matches exactly when some stretch of its name equals the search text up to the case of the letters |
| `Text.LowerChar` | src/components/App/index.js:158-159 | the lower-cased character is never an upper-case ASCII letter; it differs from the input exactly when the input is one, and then by the fixed upper-to-lower offset |
| `Text.LowerIdempotent` | src/components/App/index.js:158-159 | lower-casing twice is lower-casing once, and the lower-cased text differs from the original only in letter case |
| `Text.LowerIgnoresCase` | src/components/App/index.js:158-159 | two texts have the same lower-case form exactly when they differ only in the case of their letters |
| `Text.LowerOccurs` | src/components/App/index.js:158-160 | the lower-cased search text occurs at a position of the lower-cased name exactly when the search text occurs there up to letter case |
| `Text.IncludesIgnoringCase` | src/components/App/index.js:158-160 | `includes` on the two lower-cased strings is true exactly when the search text occurs somewhere in the name up to letter case |
| `Catalog.MatchesIgnoresCase` | src/components/App/index.js:156-161 | whether an entry matches does not depend on the letter case of its name or of the search text |
| `Catalog.MatchesLoweredSearch` | src/components/App/index.js:158-160 | searching with the lower-cased text gives the same answer as searching with the text as typed |
| `Text.Includes` | src/components/App/index.js:160 | `includes` is true exactly when some position of the name starts an occurrence of the search text |
| `Catalog.Filter` | src/components/App/index.js:156-161 | an entry is in the filtered list exactly when it is in the list and its lower-cased name includes the lower-cased search text; the result is no longer than the list |
| `Catalog.FilterCounts` | src/components/App/index.js:156-161 | the filter keeps every copy of a matching entry and no copy of any other entry |
| `Catalog.FilterIsSubsequence` | src/components/App/index.js:156-161 | the filter keeps the surviving entries in their original order (an order-preserving subsequence) |
| `Catalog.FilterAppend` | src/components/App/index.js:156-161 | filtering a concatenation is the concatenation of the filtered parts: each entry is decided on its own |
| `Catalog.FilterKeepsAll` | src/components/App/index.js:156-161 | a list whose every entry matches comes through the filter unchanged |
| `Catalog.EmptySearchKeepsAll` | src/components/App/index.js:156-161 | the empty search text is included in every name, so it keeps the whole list |
| `Catalog.FilterIdempotent` | src/components/App/index.js:156-161 | filtering the filtered list again with the same text gives the same list |
| `Catalog.FilteredCurrencies` | src/components/App/index.js:147-165 | a blank search shows the whole catalog in its order; otherwise exactly the matching entries for the untrimmed text, each with all its copies; always an order-preserving subsequence of the catalog |
| `Catalog.FilteredCurrenciesIdempotent` | src/components/App/index.js:147-165 | feeding the shown list back through the same search shows it again unchanged |
| `Catalog.FilteredCurrenciesLength` | src/components/App/index.js:150-164 | the shown list is never longer than the catalog |
| `Catalog.SubsequenceLength` | src/components/App/index.js:156-161 | an order-preserving subsequence is never longer than its source |
| `Catalog.SearchYen` | src/components/App/index.js:147-165 | on the two-entry sample catalog, the search "yen" shows only the Japanese Yen |
| `Catalog.Find` | src/components/App/index.js:175 | `find` returns nothing exactly when no entry has the name; otherwise the entry at the first position that has it |
| `Catalog.FindUnique` | src/components/App/index.js:175 | when names are unique, the lookup of an entry's name returns that entry |
| `Catalog.ShownEntriesResolve` | src/components/App/index.js:237-243 | every entry the list shows (so every name a click can select) is found by the rate lookup, which is what `SetCurrency` requires |
| `Converter.Multiply` | src/components/App/index.js:178 | the product is NaN exactly when the amount is NaN; otherwise amount times rate |
| `Converter.Title` | src/components/App/index.js:89 | the title is `"Converter - "` followed by the currency name, so the name can be read back from it |
| `Converter.TitleInjective` | src/components/App/index.js:89 | two currencies with the same title are the same currency |
| `Converter.TitleLogExtend` | src/components/App/index.js:82-89 | writing the title after a real change of currency keeps the title history well formed: last entry current, no entry repeated back to back |
| `Converter.App.constructor` | src/components/App/index.js:49-67 | for a catalog holding "United States Dollar" (the first render looks up its rate), the initial state is open, amounts 1 and 1, that currency, empty search; the mount hook has written exactly one title, for that currency; the invariant holds |
| `Converter.App.UpdateTitle` | src/components/App/index.js:87-92 | appends `"Converter - " + currency` to the title history |
| `Converter.App.ComponentDidUpdate` | src/components/App/index.js:74-85 | a title is written after a render exactly when the currency differs from the previous one |
| `Converter.App.HandleClick` | src/components/App/index.js:96-111 | sets `open` to the argument; all other fields and the title history unchanged |
| `Converter.App.SetCurrency` | src/components/App/index.js:113-125 | for a name in the catalog (otherwise the next render throws and no hook runs), sets `currency` to it with the other fields unchanged; one title for the new currency is written exactly when it differs from the old one; the invariant, the selected name resolving included, is kept |
| `Converter.App.SetSearch` | src/components/App/index.js:127-131 | sets `inputSearch` to the argument verbatim; all other fields and the title history unchanged |
| `Converter.App.SetBaseAmount` | src/components/App/index.js:133-137 | sets `baseAmount` to the argument, NaN included; `baseAmountSubmitted` and the other fields unchanged |
| `Converter.App.HandleSubmit` | src/components/App/index.js:139-145 | sets `baseAmountSubmitted` to the pre-call `baseAmount`; every other field, `baseAmount` included, unchanged |
| `Converter.App.GetFilteredCurrencies` | src/components/App/index.js:147-165 | the list shown for the current search box: the whole catalog when blank, otherwise exactly the matching entries with all their copies, in catalog order |
| `Converter.App.ComputeAmount` | src/components/App/index.js:172-178 | requires the selected name in the catalog; the result is the submitted amount times the rate of the first entry with that name, and NaN exactly when the submitted amount is NaN |

## Left out

- `render` and its JSX (src/components/App/index.js:191-248): layout. It decides one thing, showing the list while `open` is true. Its call of `computeAmount` is the lookup that needs the selected name in the catalog, and that need is the `Valid()` invariant and the requires of the constructor and `SetCurrency`. React's recovery from a render that throws is not modelled.
- The `Currencies`, `Header`, `CustomButton` and `Amount` components: they hold no state and only forward a clicked name, the typed search text, `parseFloat` of the typed amount and `!open` to the handlers. The handlers accept any such argument.
- The currency data file `src/data/currencies` is not part of this model; the catalog is any immutable sequence of (name, rate) records, passed to the constructor.
- `document.title` and `console.log`: host side effects. The ghost `titles` log stands for the title writes.
- React's asynchronous, batched `setState`: each handler is one atomic update of the state it was called on.
- Converter.Multiply: the product is the exact real product, not the IEEE-754 double product; rounding, infinities and negative zero are not modelled.
- Converter.App.ComputeAmount: returns the number before `toFixed(2)`; JavaScript's number-to-string rounding is not modelled.
- Converter.Number: `parseFloat` can also give infinities; only finite values and NaN are modelled.
- Text.Lower: lower-cases only the ASCII letters A-Z, where `toLowerCase` follows the full Unicode case mapping.
