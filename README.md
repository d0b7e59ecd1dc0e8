# 99tech code challenge — a Dafny model of its core

The repository is a set of small, unrelated exercises. This project models the parts of it that are
self-contained logic and proves properties of each; the "## Model" table lists every contract, and
"## Left out" names what is not captured:

- **Summation kata** (`src/problem1/sum.js`), module `Summation`. It covers the loop, the Gauss
  formula and the recursion, and proves that all three give the same value for every integer.
- **Amount text handling of the swap form** (`utils/currency.ts`), module `Currency`.
  - `formatAmount` strips junk, keeps the first decimal point and inserts thousands separators.
  - `validateAmount` is an ordered chain of rules returning the first broken one.
  - The comma-stripping half of `parseAmount` is included.
- **Latest-price reduction** (`hooks/usePrices.ts`), module `Prices`. It keeps, per currency, the
  price with the strictly latest date, then lists the currencies sorted. An unparseable date is
  `None` and never compares greater.
- **Wallet pipeline** (`src/problem3/refactored.tsx`), module `Wallet`. The priority table and
  `getPriority` feed the map → filter → sort chain and the rows built from its output.
- **Resource service** (`src/problem5/crud-server`):
  - `ResourceTypes`: the records of `types/resource.ts`.
  - `Validation`: the Joi schemas as functions returning the normalised value or the first error.
  - `Repository`: the class `ResourceModel`, an in-memory table with an AUTOINCREMENT counter.
    It carries the WHERE, ORDER BY and LIMIT/OFFSET semantics of the SQL it builds.
  - `Controller`: the five handlers as methods returning the response or the error passed to `next`.
  - `Client`: the browser client's validator, the page arithmetic and the `ResourceManager` state.

Two helper modules hold the JavaScript string operations the sources use:
- `JsText` covers `trim`, `split`, `join`, `replace` of one character and substring search.
- `StringOrder` is the default `Array.prototype.sort` order on strings (UTF-16 code units), with an
  insertion sort. `ORDER BY` in SQLite compares by code point instead; `Repository` has its own
  order for it.

Clocks are parameters: `now` is the ISO text `new Date().toISOString()` would give. Network calls,
the database driver and the DOM are not modelled.

## Model

| member | source | states |
|---|---|---|
| Summation.ConsecutiveProductEven | src/problem1/sum.js:17-22 | m·(m+1) is even, so the formula's division by two is exact |
| Summation.SumFormula | src/problem1/sum.js:17-22 | the result is a natural number r with 2r = m(m+1) for m = max(0, n) |
| Summation.FormulaStep | src/problem1/sum.js:7-9 | the closed form of i is the closed form of i-1 plus i, the step the loop takes |
| Summation.SumRecursive | src/problem1/sum.js:27-34 | terminates for every integer (0 for n ≤ 0) and equals the closed form |
| Summation.SumIterative | src/problem1/sum.js:4-11 | loop invariant sum = (i-1)i/2; the result equals the formula and the recursion, and is 0 for n ≤ 0 |
| Currency.Clean | src/problem2/fancy-form/src/utils/currency.ts:11 | only digits and dots remain; with CleanAppend and CleanChar, exactly the digits and dots of the input are kept, in order |
| Currency.CleanAppend | src/problem2/fancy-form/src/utils/currency.ts:11 | cleaning a concatenation is concatenating the cleaned parts, so cleaning works character by character |
| Currency.CleanChar | src/problem2/fancy-form/src/utils/currency.ts:11 | one character is kept exactly when it is an ASCII digit or a dot |
| Currency.KeepFirstDot | src/problem2/fancy-form/src/utils/currency.ts:13-17 | reference for "one decimal point": at most one dot, and a dot remains iff there was one |
| Currency.SingleDotKeepsFirst | src/problem2/fancy-form/src/utils/currency.ts:14-17 | the split-and-join of the source equals the reference KeepFirstDot on every text |
| Currency.KeepFirstDotChars | src/problem2/fancy-form/src/utils/currency.ts:14-17 | keeping the first dot adds no character other than digits and dots |
| Currency.KeepFirstDotCollapsed | src/problem2/fancy-form/src/utils/currency.ts:14-17 | on a text that already has at most one dot, keeping the first dot changes nothing |
| Currency.CollapsedAfterDot | src/problem2/fancy-form/src/utils/currency.ts:20-21 | after the only dot of a collapsed text there is no other dot |
| Currency.CollapsedParts | src/problem2/fancy-form/src/utils/currency.ts:21 | `split('.')` of a collapsed text with a dot gives exactly the digits before and after it |
| Currency.FormatAmount | src/problem2/fancy-form/src/utils/currency.ts:9-27 | output has only digits, commas and at most one dot; deleting its commas gives the cleaned input with every dot after the first deleted |
| Currency.FormatAmountParts | src/problem2/fancy-form/src/utils/currency.ts:20-26 | before the dot, the output is the grouped integer part; after it, the cleaned fraction with extra dots deleted and no commas; a dot is output iff the input had one |
| Currency.FormatAmountGroups | src/problem2/fancy-form/src/utils/currency.ts:22-25 | commas split the integer part into a leading group of 1-3 digits followed by groups of exactly 3 |
| Currency.GroupDigits | src/problem2/fancy-form/src/utils/currency.ts:22-25 | grouping a digit run only inserts commas: deleting them gives the run back, and no dot appears |
| Currency.GroupFromRemove | src/problem2/fancy-form/src/utils/currency.ts:22-25 | grouping a suffix of a digit run inserts only commas |
| Currency.GroupFromStep | src/problem2/fancy-form/src/utils/currency.ts:22-25 | a comma goes before a digit exactly at a non-initial position with a positive multiple of three digits from it to the end |
| Currency.GroupFromChars | src/problem2/fancy-form/src/utils/currency.ts:22-25 | grouping a digit run gives digits and commas only |
| Currency.GroupFromShort | src/problem2/fancy-form/src/utils/currency.ts:22-25 | a run of at most three digits gets no comma |
| Currency.GroupFromLastThree | src/problem2/fancy-form/src/utils/currency.ts:22-25 | the last three digits of a longer run are preceded by one comma |
| Currency.GroupFromPeel | src/problem2/fancy-form/src/utils/currency.ts:22-25 | grouping a run of more than three digits is grouping all but the last three, a comma, then the last three |
| Currency.GroupFromPeelStep | src/problem2/fancy-form/src/utils/currency.ts:22-25 | a digit before the last three gets a comma in the whole run exactly when it gets one in the run without the last three |
| Currency.GroupSplits | src/problem2/fancy-form/src/utils/currency.ts:22-25 | splitting a grouped non-empty run at its commas gives thousands groups |
| Currency.ThousandsGroupsAppend | src/problem2/fancy-form/src/utils/currency.ts:22-25 | thousands groups followed by one more group of three digits are still thousands groups |
| Currency.DottedRemove | src/problem2/fancy-form/src/utils/currency.ts:20-23 | deleting the commas of the dotted output gives integer part, dot, fraction |
| Currency.DottedCount | src/problem2/fancy-form/src/utils/currency.ts:20-23 | the dotted output has exactly one dot |
| Currency.DottedChars | src/problem2/fancy-form/src/utils/currency.ts:20-23 | the dotted output has only digits, commas and dots |
| Currency.RenderDotted | src/problem2/fancy-form/src/utils/currency.ts:20-23 | the dotted branch's output: its comma-free form, its single dot, its characters, and its parts around the dot |
| Currency.RenderPlain | src/problem2/fancy-form/src/utils/currency.ts:24-26 | the branch without a dot outputs the grouped digits with no dot, and deleting the commas gives the input back |
| Currency.CleanFormatted | src/problem2/fancy-form/src/utils/currency.ts:11 | cleaning a text of digits, commas and dots deletes exactly its commas |
| Currency.FormatAmountIdempotent | src/problem2/fancy-form/src/utils/currency.ts:9-27 | formatting a formatted amount again changes nothing, which reformatting on blur relies on |
| Currency.FormatShortDotted | src/problem2/fancy-form/src/utils/currency.ts:14-23 | with at most three digits before the first dot, the output is those digits, a dot and the rest with its dots deleted |
| Currency.CleanDigitsOrDots | src/problem2/fancy-form/src/utils/currency.ts:11 | a text of digits and dots is already clean |
| Currency.FormatAmountExtraDots | src/problem2/fancy-form/src/utils/currency.ts:14-17 | a value shaped like "1.2.3.4" becomes "1.234" |
| Currency.FormatAmountFraction | src/problem2/fancy-form/src/utils/currency.ts:20-23 | digits after the dot are never grouped: a value shaped like "123.456789" is unchanged |
| Currency.FormatAmountTrivial | src/problem2/fancy-form/src/utils/currency.ts:9-27 | "" and "." are formatted to themselves |
| Currency.FormatAmountThousand | src/problem2/fancy-form/src/utils/currency.ts:25 | "1000" is formatted as "1,000" |
| Currency.StripSeparators | src/problem2/fancy-form/src/utils/currency.ts:29-30 | the result has no comma, is shorter than the input by exactly its number of commas, and keeps every other character of the input |
| JsText.RemoveAppend | src/problem2/fancy-form/src/utils/currency.ts:30 | deleting a character from a concatenation is deleting it from each part, so the deletion works character by character |
| JsText.RemoveCons | src/problem2/fancy-form/src/utils/currency.ts:30 | deleting a character keeps a first character other than it and drops it otherwise |
| Currency.ParseAfterFormat | src/problem2/fancy-form/src/utils/currency.ts:9-30 | stripping the separators of a formatted amount gives the cleaned input with only its first dot kept, and formatting that again gives the same formatted amount |
| Currency.CheckAmount | src/problem2/fancy-form/src/utils/currency.ts:34-69 | a blank value is no error; any other value is accepted iff it starts with a digit, its comma-free text is well formed, starts with 1-9 or "0.", denotes a positive decimal, and no comma is misplaced; a leading separator after trimming is reported as such; otherwise the first of format, leading digit, positivity and comma placement that fails is the rule reported |
| Currency.ValidateAmount | src/problem2/fancy-form/src/utils/currency.ts:34-69 | "" iff the value is blank or passes every rule; otherwise the message of the first rule broken, stated rule by rule in terms of the rules themselves |
| Currency.CheckAmountBlank | src/problem2/fancy-form/src/utils/currency.ts:35-37 | a whitespace-only value gives no error |
| Currency.FormattedLeadingDigit | src/problem2/fancy-form/src/utils/currency.ts:9-27 | a formatted amount starts with the first character of its comma-free text when that character is a digit |
| Currency.FormattedAccepted | src/problem2/fancy-form/src/utils/currency.ts:9-69 | a formatted amount whose comma-free text starts with 1-9 or "0." and has a nonzero digit passes every rule |
| Currency.CheckAmountGrouped | src/problem2/fancy-form/src/utils/currency.ts:34-69 | every digit run starting with 1-9, with its thousands separators in place, is accepted, as "1000", "1,000" and "1,000,000" are |
| Currency.CheckAmountGroupedFraction | src/problem2/fancy-form/src/utils/currency.ts:34-69 | a grouped digit run, a dot and a digit tail are accepted when the leading-digit and positivity rules hold, as "1,000.50" and "0.5" are |
| Currency.StartsWithSeparator | src/problem2/fancy-form/src/utils/currency.ts:39-42 | a trimmed value starting with a comma or a dot breaks the first rule |
| Currency.CheckAmountLeadingComma | src/problem2/fancy-form/src/utils/currency.ts:39-42 | " ,123" is refused for its leading comma, after trimming |
| Currency.AmountSyntaxChars | src/problem2/fancy-form/src/utils/currency.ts:45 | a text of the accepted shape has only digits, commas and dots |
| Currency.CollapsedSyntax | src/problem2/fancy-form/src/utils/currency.ts:45 | a non-empty text of digits with at most one dot, not starting with the dot, has the accepted shape |
| Currency.PassesFormat | src/problem2/fancy-form/src/utils/currency.ts:44-47 | a trimmed value whose comma-free text has the accepted shape never gets the format error |
| Currency.AcceptedStartsWithDigit | src/problem2/fancy-form/src/utils/currency.ts:40-47 | a value that passes the first two rules starts with a digit |
| Currency.CheckAmountLeadingZero | src/problem2/fancy-form/src/utils/currency.ts:49-53 | "0" and "0123" are refused by the leading-digit rule |
| Currency.CheckAmountZero | src/problem2/fancy-form/src/utils/currency.ts:55-59 | "0.0" passes the format and leading-digit rules and is refused by the positivity rule |
| Currency.KeepsCommas | src/problem2/fancy-form/src/utils/currency.ts:61-66 | without a misplaced comma, the comma error never occurs; misplacement means at least one comma and more than three characters after the last comma, none of them a dot |
| Currency.LongLastGroup | src/problem2/fancy-form/src/utils/currency.ts:61-66 | a digit 1-9, a comma and more than three digits pass every earlier rule and get the comma error |
| Currency.OneCommaSplit | src/problem2/fancy-form/src/utils/currency.ts:63 | a text with one comma splits into the parts before and after it |
| Currency.CheckAmountCommaPlacement | src/problem2/fancy-form/src/utils/currency.ts:61-66 | "1,2345" gets the comma error |
| Currency.FormattedCollapsed | src/problem2/fancy-form/src/utils/currency.ts:9-27 | a formatted amount without its commas has digits and at most one dot |
| Currency.FormattedSyntax | src/problem2/fancy-form/src/utils/currency.ts:9-27 | a formatted amount that does not start with a separator is trimmed, and its comma-free text has the accepted shape |
| Currency.DottedLastPart | src/problem2/fancy-form/src/utils/currency.ts:61-66 | a text whose part after the dot has no comma never has misplaced commas |
| Currency.GroupedLastPart | src/problem2/fancy-form/src/utils/currency.ts:61-66 | a grouped digit run never has misplaced commas |
| Currency.FormattedCommas | src/problem2/fancy-form/src/utils/currency.ts:9-27 | the commas formatAmount inserts are never misplaced |
| Currency.FormattedNeverBadFormat | src/problem2/fancy-form/src/utils/currency.ts:9-47 | validating a formatted amount never gives the format error |
| Currency.FormattedNeverMisplacesCommas | src/problem2/fancy-form/src/utils/currency.ts:9-27 | validating a formatted amount never gives the comma error |
| Prices.Step | src/problem2/fancy-form/src/hooks/usePrices.ts:33-38 | one record is stored iff its currency is new or its date is strictly later; an unparseable date on either side never replaces; other currencies are untouched |
| Prices.LatestEntries | src/problem2/fancy-form/src/hooks/usePrices.ts:33-38 | the keys of the reduced map are exactly the currencies of the records |
| Prices.LatestEntriesChosen | src/problem2/fancy-form/src/hooks/usePrices.ts:33-38 | each stored entry is the entry of that currency's chosen record: strictly later than every earlier one (or an earlier one with an unparseable date), and no later one is strictly later; so on equal dates the first seen wins |
| Prices.ChosenReplace | src/problem2/fancy-form/src/hooks/usePrices.ts:35-36 | a record strictly later than the chosen one becomes the chosen one |
| Prices.ChosenExtend | src/problem2/fancy-form/src/hooks/usePrices.ts:35-36 | a record not strictly later, or of another currency, leaves the chosen record in place |
| Prices.FirstOfCurrency | src/problem2/fancy-form/src/hooks/usePrices.ts:34-35 | every currency has a first record, which the map does not hold yet |
| Prices.ChosenUnique | src/problem2/fancy-form/src/hooks/usePrices.ts:35-36 | the chosen record of a currency is unique |
| Prices.SortedCurrencies | src/problem2/fancy-form/src/hooks/usePrices.ts:50-52 | the sorted list has the same elements, and strictly increases when the keys are distinct |
| Prices.LatestPriceMap | src/problem2/fancy-form/src/hooks/usePrices.ts:30-38 | the loop builds exactly the reduced map, and the keys in insertion order, each once |
| Prices.LatestEntriesPrefix | src/problem2/fancy-form/src/hooks/usePrices.ts:33-38 | the map after one more record is the previous map with that record's step applied |
| Prices.KeysAfterStep | src/problem2/fancy-form/src/hooks/usePrices.ts:33-38 | pushing a currency onto the key list exactly when it is new keeps the list duplicate-free and equal, as a set, to the map's keys |
| Prices.PricesOnly | src/problem2/fancy-form/src/hooks/usePrices.ts:40-44 | the result has the same keys, each with its entry's price |
| Prices.CurrencyPrices | src/problem2/fancy-form/src/hooks/usePrices.ts:27-52 | no data or empty data gives an empty map and list; otherwise every currency is a key once, with its chosen record's price, and the list is the keys sorted, strictly increasing |
| StringOrder.Sort | src/problem2/fancy-form/src/hooks/usePrices.ts:51 | the default sort returns a sorted permutation of its input, in UTF-16 code-unit order |
| StringOrder.BelowIsCodeUnitOrder | src/problem2/fancy-form/src/hooks/usePrices.ts:51 | comparing characters by rank is the lexicographic order of the UTF-16 encodings, a proper prefix first, which is what the comparator-less sort compares |
| StringOrder.CharUnitsOrder | src/problem2/fancy-form/src/hooks/usePrices.ts:51 | the encodings of two different characters differ within the shorter one, at a place where the code units compare as the ranks do |
| StringOrder.UnitsBelowCommonPrefix | src/problem2/fancy-form/src/hooks/usePrices.ts:51 | a common prefix of code units does not change the order |
| StringOrder.Utf16KeyInjective | src/problem2/fancy-form/src/hooks/usePrices.ts:51 | different characters have different ranks, so the order is total |
| StringOrder.CodeUnits | src/problem2/fancy-form/src/hooks/usePrices.ts:51 | each character is one or two UTF-16 code units |
| StringOrder.Encode | src/problem2/fancy-form/src/hooks/usePrices.ts:51 | the encoding of a text is empty exactly when the text is |
| StringOrder.SortDistinct | src/problem5/crud-server/public/script.js:268-279 | sorting pairwise different elements, such as the elements of a set or the keys of a map, gives a strictly increasing sequence: each option once, in order |
| StringOrder.DistinctAppend | src/problem5/crud-server/public/script.js:269-271 | adding an element that is not there yet keeps the elements distinct, as `Set.add` and `Map.set` on a new key do |
| StringOrder.DistinctOnce | src/problem5/crud-server/public/script.js:268-271 | a set's elements occur once each |
| Wallet.Priority | src/problem3/refactored.tsx:25-37 | the table's value (at least 20) for Osmosis 100, Ethereum 50, Arbitrum 30, Zilliqa 20, Neo 20, and -99 for anything else; above -99 iff one of the five |
| Wallet.MapPriorities | src/problem3/refactored.tsx:53-56 | same length; each balance keeps currency, amount and blockchain and gets the priority of its chain |
| Wallet.FilterKept | src/problem3/refactored.tsx:58 | every kept balance has priority above -99 and a positive amount, and each balance is kept as often as it occurs iff it passes |
| Wallet.Insert | src/problem3/refactored.tsx:60 | inserting adds exactly the one balance |
| Wallet.InsertSorted | src/problem3/refactored.tsx:60 | inserting into a list sorted by non-increasing priority keeps it sorted |
| Wallet.InsertBounded | src/problem3/refactored.tsx:60 | inserting raises no priority above a common bound |
| Wallet.InsertKeepsGroups | src/problem3/refactored.tsx:60 | within one priority, the inserted balance comes first and the others keep their order |
| Wallet.SortByPriority | src/problem3/refactored.tsx:60 | the result is sorted by non-increasing priority and is a permutation of the input |
| Wallet.SortKeepsGroups | src/problem3/refactored.tsx:60 | sorting keeps, within each priority, the input order |
| Wallet.SortedBalancesSpec | src/problem3/refactored.tsx:52-60 | the pipeline output is sorted, every element passes the filter with its chain's priority, it is a permutation of exactly the mapped balances that pass, and equal priorities keep their order |
| Wallet.SortedElement | src/problem3/refactored.tsx:52-60 | every output balance passes the filter and carries its chain's priority |
| Wallet.RowOf | src/problem3/refactored.tsx:63-77 | a row keyed by the currency, with the amount, and a USD value iff the currency has a price, equal to price × amount |
| Wallet.Rows | src/problem3/refactored.tsx:63-77 | one row per sorted balance, in the same order |
| Wallet.WalletRows | src/problem3/refactored.tsx:50-78 | the rows are keyed by the sorted balances' currencies, one per balance, in order |
| ResourceTypes.ParseStatus | src/problem5/crud-server/src/types/resource.ts:6 | a text names a status only when it is that status's text |
| ResourceTypes.StatusRoundTrip | src/problem5/crud-server/src/types/resource.ts:6 | parsing a status's text gives the status back, and only "active" and "inactive" parse |
| Validation.EmptyMessage | src/problem5/crud-server/src/utils/validation.ts:5-37 | a blank value is "is required" on create and "cannot be empty" on update, for the same key |
| Validation.CheckText | src/problem5/crud-server/src/utils/validation.ts:4-21 | passes iff absent and optional, or a string whose trimmed length is within [1, max]; keeps the trimmed text; gives the required, type, blank and too-long errors |
| Validation.CheckTextStable | src/problem5/crud-server/src/utils/validation.ts:4-21 | checking the trimmed text again gives the same result |
| Validation.CheckStatus | src/problem5/crud-server/src/utils/validation.ts:22-41 | passes iff absent or "active"/"inactive", with the status named |
| Validation.ValidateCreate | src/problem5/crud-server/src/utils/validation.ts:3-23 | accepts iff all three texts are within bounds after trimming, the status is allowed and there is no unknown key; returns the trimmed texts and the status (default active); the first error follows the key order name, description, category, then unknown keys |
| Validation.ValidateCreateStable | src/problem5/crud-server/src/utils/validation.ts:3-23 | sending the validated value again is accepted and gives the same value |
| Validation.NameErrorFirst | src/problem5/crud-server/src/utils/validation.ts:3-23 | a bad name decides the error whatever the other keys hold |
| Validation.ValidateUpdate | src/problem5/crud-server/src/utils/validation.ts:25-42 | accepts iff every present key is within bounds, there is no unknown key and at least one key is present; an empty object gets the min(1) error; the result supplies a field |
| Validation.CheckFilterText | src/problem5/crud-server/src/utils/validation.ts:45-47 | passes iff absent or a text no longer than the bound; the empty text is allowed |
| Validation.CheckStatusFilter | src/problem5/crud-server/src/utils/validation.ts:46 | passes iff absent, "", "active" or "inactive" |
| Validation.CheckInteger | src/problem5/crud-server/src/utils/validation.ts:48-49 | passes iff missing or a safe integer within the bounds; missing gives the default |
| Validation.ValidateFilters | src/problem5/crud-server/src/utils/validation.ts:44-50 | accepts iff every key is within its rule and no unknown key; limit is in [1, 100] with default 20, offset is ≥ 0 with default 0 |
| Validation.EmptyQueryDefaults | src/problem5/crud-server/src/utils/validation.ts:48-49 | an empty query validates to no filters, limit 20 and offset 0 |
| Validation.DigitValue | src/problem5/crud-server/src/controllers/resourceController.ts:62 | a digit's value is below the radix, and a decimal digit has its usual value |
| Validation.DigitPrefix | src/problem5/crud-server/src/controllers/resourceController.ts:62 | `parseInt` reads the longest prefix of digits |
| Validation.Decimal | src/problem5/crud-server/src/controllers/resourceController.ts:62 | the decimal text of a number is non-empty digits without a leading zero |
| Validation.DecimalValue | src/problem5/crud-server/src/controllers/resourceController.ts:62 | the digits of a number's decimal text denote that number |
| Validation.TrimStartPrefix | src/problem5/crud-server/src/controllers/resourceController.ts:62 | `parseInt` skips leading whitespace |
| Validation.DigitPrefixStops | src/problem5/crud-server/src/controllers/resourceController.ts:62 | reading digits stops at the first non-digit |
| Validation.UnsignedDecimal | src/problem5/crud-server/src/controllers/resourceController.ts:62 | a number's decimal text followed by a non-digit parses to the number |
| Validation.ParseIntDecimal | src/problem5/crud-server/src/controllers/resourceController.ts:62 | whitespace, a decimal number and trailing junk parse to the number |
| Validation.ParseIntOfDigit | src/problem5/crud-server/src/controllers/resourceController.ts:62 | a text starting with a digit parses to its unsigned value |
| Validation.ParseIntEmpty | src/problem5/crud-server/src/controllers/resourceController.ts:62 | the empty parameter is NaN |
| Validation.ValidateId | src/problem5/crud-server/src/utils/validation.ts:52-54 | an id is accepted iff `parseInt` gives an integer in [1, 2^53-1], and that integer is the id |
| Validation.ValidateIdDecimal | src/problem5/crud-server/src/utils/validation.ts:52-54 | every positive safe integer written out is accepted as itself; "0", a negative number and the empty text are refused |
| Validation.DecimalAlone | src/problem5/crud-server/src/controllers/resourceController.ts:62 | a number's decimal text parses to the number |
| Validation.NegativeDecimal | src/problem5/crud-server/src/controllers/resourceController.ts:62 | a minus sign before a number's decimal text parses to its negation |
| Repository.NoFilterMatchesAll | src/problem5/crud-server/src/models/resource.ts:36-50 | with no filter, or only empty ones, every row matches |
| Repository.NotAboveTransitive | src/problem5/crud-server/src/models/resource.ts:52 | the createdAt order is transitive |
| Repository.BinaryBelowTransitive | src/problem5/crud-server/src/models/resource.ts:52 | the BINARY collation that orders createdAt is transitive |
| Repository.BinaryBelowTotal | src/problem5/crud-server/src/models/resource.ts:52 | any two different createdAt texts collate one way or the other |
| Repository.InsertNewestFirst | src/problem5/crud-server/src/models/resource.ts:52 | inserting adds exactly the one row |
| Repository.InsertKeepsNewestFirst | src/problem5/crud-server/src/models/resource.ts:52 | inserting into a list ordered by createdAt descending keeps it ordered |
| Repository.SortNewestFirst | src/problem5/crud-server/src/models/resource.ts:52 | the result is ordered by createdAt descending and is a permutation of the input |
| Repository.Window | src/problem5/crud-server/src/models/resource.ts:54-62 | LIMIT applies only for a truthy limit and OFFSET only when the limit applies and the offset is truthy; the page is the slice they select |
| Repository.WindowLeavesMore | src/problem5/crud-server/src/controllers/resourceController.ts:52 | rows remain after the page iff offset + limit < total |
| Repository.Apply | src/problem5/crud-server/src/models/resource.ts:77-108 | only the supplied fields change, plus updatedAt; id and createdAt stay |
| Repository.ApplyIdempotent | src/problem5/crud-server/src/models/resource.ts:77-108 | applying the same update twice at the same time is applying it once |
| Repository.ResourceModel.constructor | src/problem5/crud-server/src/models/database.ts:97 | an empty table whose first id is 1 |
| Repository.ResourceModel.Create | src/problem5/crud-server/src/models/resource.ts:5-21 | stores the row under the next id, above every stored id, and advances the counter; status defaults to active; createdAt = updatedAt = now |
| Repository.ResourceModel.FindById | src/problem5/crud-server/src/models/resource.ts:23-30 | the stored row, or none iff the id is absent |
| Repository.ResourceModel.ScanMatching | src/problem5/crud-server/src/models/resource.ts:36-50 | the loop collects every matching row, once each |
| Repository.ResourceModel.ScannedRows | src/problem5/crud-server/src/models/resource.ts:36-50 | every scanned row is stored under its id and matches |
| Repository.ResourceModel.ScannedCount | src/problem5/crud-server/src/models/resource.ts:120-142 | the scan holds as many rows as there are matching ids |
| Repository.ResourceModel.ScannedOnce | src/problem5/crud-server/src/models/resource.ts:36-50 | every matching row is scanned exactly once |
| Repository.ResourceModel.ScannedOnceStep | src/problem5/crud-server/src/models/resource.ts:36-50 | scanning one more matching row, with an id above every row scanned so far, keeps each matching row scanned exactly once |
| Repository.ResourceModel.ScanIsListing | src/problem5/crud-server/src/models/resource.ts:36-50 | a scan of the whole table lists every matching row once and nothing else |
| Repository.ResourceModel.ListingPermuted | src/problem5/crud-server/src/models/resource.ts:52 | reordering a listing of the matching rows is still a listing |
| Repository.ResourceModel.FindAll | src/problem5/crud-server/src/models/resource.ts:32-66 | the page is the LIMIT/OFFSET window of all matching rows ordered by createdAt descending |
| Repository.ResourceModel.Update | src/problem5/crud-server/src/models/resource.ts:68-109 | an absent id gives none and no change; no fields gives the row unchanged, updatedAt included; otherwise the row with the update applied is stored and returned |
| Repository.ResourceModel.Delete | src/problem5/crud-server/src/models/resource.ts:111-118 | true iff the id existed; afterwards it is absent and the rest is unchanged |
| Repository.ResourceModel.Count | src/problem5/crud-server/src/models/resource.ts:120-142 | the number of rows matching the same filter as findAll, ignoring limit and offset |
| Controller.Create | src/problem5/crud-server/src/controllers/resourceController.ts:12-29 | an invalid body gives 400 with the first message and no change; otherwise 201 with the stored row |
| Controller.GetAll | src/problem5/crud-server/src/controllers/resourceController.ts:31-58 | an invalid query gives 400; otherwise 200 with the window of the ordered matching rows, the total, the validated limit and offset, and hasMore iff rows remain after the page |
| Controller.GetById | src/problem5/crud-server/src/controllers/resourceController.ts:60-83 | a bad id gives 400 "Invalid resource ID" before any lookup; an absent row gives 404 "Resource not found"; otherwise 200 with the row |
| Controller.Update | src/problem5/crud-server/src/controllers/resourceController.ts:85-117 | the id is checked before the body; a bad id or body gives 400, an absent row 404, each with no change; otherwise 200 with the updated row, which has the new updatedAt |
| Controller.Delete | src/problem5/crud-server/src/controllers/resourceController.ts:119-142 | a bad id gives 400 and an absent row 404, each with no change; otherwise 200 with the deletion message and the row removed |
| Client.FromForm | src/problem5/crud-server/public/script.js:130-135 | the form resource holds the trimmed texts and the status as selected |
| Client.FromFormTrimmed | src/problem5/crud-server/public/script.js:130-135 | every text the form handlers build is trimmed |
| Client.ValidateResource | src/problem5/crud-server/public/script.js:412-435 | null iff the lengths are within [1,255], [1,1000] and [1,100]; otherwise the first message in the order name, description, category; the status is not looked at |
| Client.TrimmedField | src/problem5/crud-server/src/utils/validation.ts:4-21 | on trimmed text the server's string rule is a length check |
| Client.ClientAcceptsLikeServer | src/problem5/crud-server/public/script.js:412-435 | on every form the client can send, it accepts iff the server's create schema accepts, and then the server keeps the texts as sent |
| Client.ClientRejectsLikeServer | src/problem5/crud-server/public/script.js:412-435 | when the client refuses a form, the server would answer with the same message |
| Client.ClientPassesUpdate | src/problem5/crud-server/public/script.js:306-314 | a form the client accepts is a valid update body |
| Client.RequestOffset | src/problem5/crud-server/public/script.js:159-162 | the requested offset is a multiple of the page size 12 |
| Client.CurrentPage | src/problem5/crud-server/public/script.js:248 | floor(offset/limit): the page whose rows contain the offset |
| Client.TotalPages | src/problem5/crud-server/public/script.js:249 | ceil(total/limit): the fewest pages of limit rows that hold all rows |
| Client.CurrentPageOfRequest | src/problem5/crud-server/public/script.js:159-248 | the page shown is the page requested |
| Client.HasMoreIsNotLastPage | src/problem5/crud-server/public/script.js:245-266 | the server's hasMore for a requested page holds iff the page is not the last of totalPages |
| Client.RenderPagination | src/problem5/crud-server/public/script.js:245-266 | previous is disabled iff the page is 0, next iff there is no more; the buttons target the pages around the current one |
| Client.RequestAccepted | src/problem5/crud-server/public/script.js:158-163 | every page request whose search has at most 255 characters (with a category of at most 100 and a status from the select) passes the server's filter schema, which pages by 12 and the client's offset |
| Client.LongSearchRefused | src/problem5/crud-server/public/script.js:40-41 | a search of more than 255 characters, which the search box does not prevent, makes the server refuse the page request |
| Client.ResourceManager.constructor | src/problem5/crud-server/public/script.js:2-12 | page 0, no filters and no categories |
| Client.ResourceManager.ChangePage | src/problem5/crud-server/public/script.js:351-355 | a negative page is ignored; otherwise it becomes the current page; the rest is unchanged |
| Client.ResourceManager.ClearFilters | src/problem5/crud-server/public/script.js:357-366 | no filters and page 0; the categories are kept |
| Client.ResourceManager.UpdateCategoryFilter | src/problem5/crud-server/public/script.js:268-282 | the set only grows, keeping its insertion order, by exactly the loaded rows' categories; the options are the set's elements sorted, each once |

## Left out

- Repository.ResourceModel.FindAll: the search filter is a plain, case-sensitive substring test.
  SQLite's `LIKE` folds ASCII case, and `%` and `_` in the search text act as wildcards there.
  Neither is modelled. Count uses the same filter.
- Controller.GetAll: the order among rows with equal `createdAt` is not fixed by the SQL. This
  handler and Repository.ResourceModel.FindAll therefore return a ghost ordering as the witness
  the page is cut from, and say only that it lists the matching rows newest first.
- Joi's default message texts are not modelled as text. Errors of rules without a custom message
  are values `JoiDefault(key, rule)`; the schema's own messages are exact texts.
- Joi's string-to-number conversion of query values is not modelled: `limit` and `offset` arrive as
  numbers already, or as "not a number".
- JavaScript string lengths count UTF-16 code units; the model counts characters, so the length
  bounds of the validators differ from the source for text outside the Basic Multilingual Plane.
- Currency.CheckAmount: `parseFloat` in `parseAmount` is not modelled. Positivity is read as
  "some digit is not zero", exact for decimal text, so float underflow of very small amounts is
  not captured.
- Other floating point:
  - `toFixed` is not modelled.
  - Prices, amounts and `usdValue` are reals with exact products.
- Prices.CurrencyPrices: dates are given as their parsed time values, with `None` for an unparseable date;
  `new Date` parsing itself is not modelled.
- Wallet.Priority: `BLOCKCHAIN_PRIORITIES[blockchain]` is a plain object lookup, so an inherited
  key such as "constructor" is not undefined and bypasses `??`. The model gives -99 for every
  name outside the table. After the filter this makes no difference: the inherited value is not a
  number, so the comparison with -99 is false and the balance is dropped either way.
- The `Promise.all` of `getAll` is modelled as two reads of the same state, one after the other.
- `src/problem5/crud-server/src/models/database.ts` is not part of this model. The driver,
  connections and the schema are replaced by the class state. Database errors, the error
  middleware that turns an `ApiError` into a response, and Express routing are left out.
- Browser parts of `script.js` are left out: the DOM, `fetch`, toasts, debouncing, `escapeHtml`
  and `formatDate`. So is the removal of empty query values at `public/script.js:166-168`,
  which deletes while iterating a live `URLSearchParams`.
- Client.RequestAccepted: holds only for a search of at most 255 characters. The search box has
  no length limit, and a longer search gets a 400 from the server (Client.LongSearchRefused).
- Client.ValidateResource: returns the message as the schema's message value. The client's texts
  are the same words as the create schema's own messages.
- Numbers are unbounded integers. The only bound modelled is `Number.MAX_SAFE_INTEGER`, in the id
  and integer rules.
- `src/problem3/messy_with_comments.tsx` is not part of this model: it is the unrefactored version
  of the wallet page and does not type-check.
- The React and network layers of the swap form (`App.tsx`, `CurrencySelect.tsx`, the fetch in
  `usePrices.ts`) are not part of this model.
