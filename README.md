# USD currency converter: a Dafny model

The repository is a single-screen React widget. It loads a table of rates per
US dollar, the user types an amount and picks a target currency, and the
widget shows the converted amount. All of its logic is in `src/App.tsx`. This
project models the three parts of that file that are more than markup:

- **Labels** (`labels.dfy`, module `CurrencyLabels`). This is the static
  `currencyNames` table and `getCurrencyLabel`. A label is the upper-cased code,
  followed by `" - "` and the display name when the code has one. The model
  proves the label's shape and that the code can be read back from the label,
  so distinct codes made of lower-case letters and digits get distinct labels.
- **Target list** (`ordering.dfy`, module `TargetOrder`). This is
  `sortedCurrencies`: the keys of the rate table without `"usd"`, sorted with a
  two-tier comparator. Named currencies come first. Ties are broken by
  `localeCompare`. The comparator is proved to be a valid total order.
  `Array.prototype.sort` is modelled in `sorting.dfy` (module `Sorting`) as an
  in-place insertion sort over an array. The sort takes the comparator as an
  argument, as the JavaScript one does. The result is proved to be a
  permutation of the filtered keys, ordered by group and then within each
  group. A valid comparator allows exactly one ordering of a given set of
  keys, so the list does not depend on the order in which the keys arrive.
- **Session** (`converter.dfy`, module `Converter`). This covers the `useState`
  fields `amount`, `targetCurrency`, `result`, `error` and `converting`, and
  their event handlers, as the class `Session` with one method per event.
  `handleConvert` schedules the conversion with `setTimeout`. Here the callback
  is a separate step, `CompleteConversion`. The field `pending` holds the values
  the callback captured when it was scheduled. The session invariant says three
  things:
  - a conversion is pending exactly while `converting` is set;
  - no error is shown while it is pending;
  - what was captured passed the amount check.

The model shows two behaviours of the code as small scenario methods:

- `RetargetWhileConverting`: the callback uses the amount and target it
  captured when it was scheduled. If the user picks another target during the
  delay, the result that appears is still for the old target.
- `ConvertWithoutRates`: a failed fetch leaves the rate table empty, the
  handler checks only the amount, and the callback looks the rate up without
  checking it. A valid amount still passes, and the state then holds a result
  with neither a rate nor an amount.

Two further facts about the code:

- The code never reports an unknown target currency. A target that is missing
  from the table gives `rate = undefined` and a NaN amount, which the model
  writes as `None`.
- An invalid amount only sets the error message. It does not clear a result
  that is already shown.

`wrappers.dfy` holds the `Option` type. It stands for JavaScript's `null` and
`undefined`, and for a NaN amount.

## Model

| member | source | states |
|---|---|---|
| CurrencyLabels.TableWellFormed | src/App.tsx:5-35 | every display name in the table is non-empty and every key has three characters |
| CurrencyLabels.HasName | src/App.tsx:83-84 | the truthiness test on `currencyNames[code]`; only three-character codes pass it |
| CurrencyLabels.HasNameIsMembership | src/App.tsx:83-84 | the lookup `currencyNames[code]` is truthy exactly when the code is a key of the table |
| CurrencyLabels.Upper | src/App.tsx:84 | `code.toUpperCase()`: the same length, each character upper-cased; no lower-case ASCII letter is left; on a code of lower-case letters and digits, lower-casing each character gives the code back |
| CurrencyLabels.Label | src/App.tsx:82-85 | the label starts with the upper-cased code; after it come " - " and the name when the code is named; the label is the bare upper-cased code exactly when the code is unnamed; the label is non-empty exactly when the code is |
| CurrencyLabels.LabelRoundTrip | src/App.tsx:82-85 | for a code of lower-case letters and digits, lower-casing the label up to its first space gives back the code |
| CurrencyLabels.LabelInjective | src/App.tsx:82-85 | two such codes with the same label are the same code |
| TargetOrder.WithoutBase | src/App.tsx:87-88 | the filtered keys contain "usd" nowhere, contain every other key, and contain each other key as often as the input does |
| TargetOrder.LocaleCompare | src/App.tsx:94 | `a.localeCompare(b)` is -1, 0 or 1; a proper prefix sorts first; otherwise the first differing character decides |
| TargetOrder.Compare | src/App.tsx:89-95 | the sort comparator is -1, 0 or 1; between a named and an unnamed code it puts the named one first; within a group it is `localeCompare` |
| TargetOrder.LocaleCompareAntisymmetric | src/App.tsx:94 | `a.localeCompare(b)` is minus `b.localeCompare(a)` |
| TargetOrder.LocaleCompareZeroIffEqual | src/App.tsx:94 | `localeCompare` returns 0 exactly for equal codes |
| TargetOrder.LocaleCompareTransitive | src/App.tsx:94 | `localeCompare` below zero is transitive |
| TargetOrder.CompareAntisymmetric | src/App.tsx:89-95 | the sort comparator is antisymmetric |
| TargetOrder.CompareZeroIffEqual | src/App.tsx:89-95 | the sort comparator returns 0 exactly for equal codes |
| TargetOrder.CompareStrictTransitive | src/App.tsx:89-95 | the sort comparator below zero is transitive, across the named/unnamed groups too |
| TargetOrder.CompareTransitive | src/App.tsx:89-95 | the sort comparator at most zero is transitive |
| TargetOrder.CompareIsValid | src/App.tsx:89-95 | the comparator is one that `sort` can use: antisymmetric, transitive, and 0 only for equal codes |
| Sorting.OrderedUnique | src/App.tsx:89-95 | two lists with the same elements that are both ordered by a valid comparator are equal, so the sorted list is determined |
| TargetOrder.NamedFirst | src/App.tsx:90-93 | in a list ordered by the comparator, every named code comes before every unnamed one |
| TargetOrder.GroupInLocaleOrder | src/App.tsx:94 | in a list ordered by the comparator, two codes of the same group are in `localeCompare` order |
| Sorting.Sort | src/App.tsx:89-95 | the in-place sort leaves the array ordered by the comparator and a permutation of what it was |
| TargetOrder.SortedCurrencies | src/App.tsx:87-95 | the target list is a permutation of the keys without "usd"; it has every key but "usd"; named codes come first; codes of one group are in ascending `localeCompare` order, strictly between distinct codes |
| TargetOrder.SortDeterministic | src/App.tsx:87-95 | two key lists with the same keys in any order give the same target list |
| TargetOrder.SampleTable | src/App.tsx:87-95 | the keys xyz, usd, inr, eur give the list eur, inr, xyz |
| TargetOrder.NamedBeforeAlphabet | src/App.tsx:89-93 | the keys aave, eur, usd give eur before aave: a named code goes first even when it is alphabetically later |
| Converter.ValidAmount | src/App.tsx:64 | the amount check rejects the empty text and a NaN reading; what passes is a number above zero |
| Converter.RateOf | src/App.tsx:71 | `currencies[targetCurrency]` is a rate exactly when the target is a key of the table, and then it is that key's rate |
| Converter.Conversion | src/App.tsx:71-77 | the result's currency is the upper-cased target; the rate is the table's rate, or none for a target missing from the table; the result has an amount exactly when the target has a rate and the entered amount is a number |
| Converter.ResultCurrencyMatchesLabel | src/App.tsx:76 | the shown currency is the code part of the target's label in the selector |
| Converter.ConversionPositive | src/App.tsx:72 | a valid amount at a positive rate converts to a positive amount |
| Converter.UnitRateConsistent | src/App.tsx:71-77 | the shown unit rate is the shown amount divided by the entered amount |
| Converter.Session.constructor | src/App.tsx:38-61 | after the rate request: empty amount, target "inr", no result, not converting; either the fetched rates and date with no error, or an empty table and "Failed to fetch exchange rates" |
| Converter.Session.EditAmount | src/App.tsx:138-142 | the amount becomes the typed value, the result and the error are cleared, the rest is unchanged |
| Converter.Session.SelectTarget | src/App.tsx:156-159 | the target becomes the chosen code and the result is cleared; the error and the rest are unchanged |
| Converter.Session.QuickSelect | src/App.tsx:239-245 | the target becomes the button's code and the result is cleared; the error and the rest are unchanged |
| Converter.Session.HandleConvert | src/App.tsx:63-69 | an empty, non-numeric or non-positive amount sets the error to "Please enter a valid amount" and changes nothing else; a valid amount clears the error, sets converting and schedules the current amount and target; the result is untouched either way |
| Converter.Session.CompleteConversion | src/App.tsx:70-79 | the result becomes the conversion of the captured amount and target; it has an amount exactly when the captured target is in the table; converting is cleared; amount, target and error are unchanged |
| Converter.SampleConversion | src/App.tsx:63-79 | 100 dollars at 83.1 show 8310 INR at rate 83.1 with no error |
| Converter.ZeroAmountRejected | src/App.tsx:64-67 | the amount "0" is rejected with the fixed message and nothing is scheduled |
| Converter.RetargetWhileConverting | src/App.tsx:70-79 | choosing "eur" while a conversion to "inr" is pending still shows an INR result |
| Converter.ConvertWithoutRates | src/App.tsx:57-79 | after a failed fetch, converting a valid amount leaves a result with no rate and no amount in the state |

## Left out

- The `fetch` of the rate table and the loading flag (src/App.tsx:43, 47-61) are network I/O. The constructor takes the settled response, or its absence, as a parameter.
- The 300 ms delay of `setTimeout` is not modelled as time. The callback is the explicit step `CompleteConversion`.
- Converter.Conversion: it multiplies in exact real arithmetic, not in IEEE 754 doubles, so it does not capture rounding.
- The `toLocaleString` formatting of the amount and the rate (src/App.tsx:205-208, 218-220) is locale-dependent display and is not modelled.
- Converter.ValidAmount: `isNaN` and `parseFloat` are not modelled on strings. The amount carries an abstract numeric reading, NaN or a number. The cases where JavaScript's `Number()` and `parseFloat` read a string differently, such as whitespace, are not distinguished. The number input field only produces the empty string or a numeric string.
- TargetOrder.LocaleCompare: it is lexicographic order on characters, not ICU collation. `localeCompare` is called without a locale (src/App.tsx:94), so the browser's default locale decides. The model agrees with root and English collation on lower-case codes. Under other default locales the order of codes differs: Czech sorts "ch" after "h", so "chf" would follow "hkd", and Danish sorts "aa" after "z".
- CurrencyLabels.Upper: it upper-cases only the ASCII letters, not all of Unicode.
- CurrencyLabels.HasName: it looks only at the table's own keys. In JavaScript, `currencyNames["constructor"]` is an inherited, truthy property, which the model ignores.
- `Object.keys` order is the input sequence of `SortedCurrencies`. `SortDeterministic` shows that the result does not depend on it.
- Converter.Session.HandleConvert: it requires that no conversion is pending, because the Convert button is disabled while `converting` is set (src/App.tsx:183-184).
- Rendering a result whose rate is missing is not modelled. The result panel calls `result.rate.toLocaleString` (src/App.tsx:218), which throws a TypeError when the target was not in the table, as in `ConvertWithoutRates`. With no error boundary, React then unmounts the widget. The model stops at the state the callback stores.
- Rates are not checked to be positive, because the code does not check them.
- All JSX markup, CSS classes, the rendering of the option list and quick buttons, and the as-of date display (src/App.tsx:97-258) are presentation.
