# Quote store — a verified model

This project models the state and the logic of a small quote-browsing page.
Two scripts make up the page.

- `script.js` keeps a global list of `{ text, category }` quotes that starts
  with four entries. Its `addQuote` checks the trimmed fields and pushes a new
  quote. Its `showRandomQuote` picks a random position in the list.
- `dom-manipulation/script.js` keeps the same list, starts it empty, and
  mirrors it in `localStorage` under the key `quotes`. It adds a category
  drop-down made of `"all"` followed by the distinct categories, in order of
  first appearance. It filters the list by the selected category and
  remembers that selection under the key `lastFilter`. It appends quotes from
  the form or from an imported JSON array, and draws a random quote from the
  filtered list.

The modules are:

- `Quotes` (`quotes.dfy`): the quote record, the outcome of a random draw,
  and `Math.floor(Math.random() * n)`.
- `JsText` (`js_text.dfy`): `String.prototype.trim`, using the ECMAScript set
  of white space and line terminator code points.
- `QuoteViews` (`quote_views.dfy`): the drop-down entries
  (`['all', ...new Set(categories)]`) and the filtered list
  (`quotes.filter(q => q.category === selected)`). Both are pure functions.
  The lemmas beside them relate them to independent characterisations: every
  category once, first-occurrence order, counts of each quote, subsequence.
- `QuoteJson` (`quote_json.dfy`): the text `JSON.stringify` writes for a list
  of quotes, and a reader for that text. `Encode` and `Decode` are proved
  inverse to each other in both directions.
- `DomManipulation` (`dom_manipulation.dfy`): class `QuoteStore`. Its fields
  are the global list and `localStorage`, as a map from keys to strings. Its
  methods are the script's functions.
- `Script` (`script.dfy`): class `QuoteList`, the global list of `script.js`.
  Its invariant is that every quote has a non-empty text and category.

What the scripts read from the page enters as parameters:

- the raw contents of the two form fields;
- the value the category drop-down reports (`selected`);
- the number `Math.random()` returned (`roll`, with `0 <= roll < 1`);
- the result of reading and parsing an import file.

## Model

| member | source | states |
|---|---|---|
| Quotes.RandomIndex | dom-manipulation/script.js:122 | `Math.floor(roll * n)` for `0 <= roll < 1` and `n > 0` is a valid index, `i < n`, and is the floor: `i <= roll*n < i+1`. |
| JsText.Trim | script.js:86-87 | The trimmed text is no longer than the input and neither begins nor ends with a trimmable code point. |
| JsText.TrimIsTrimOf | dom-manipulation/script.js:138-139 | `Trim(s)` is `s` with a leading and a trailing run of trimmable code points removed, and what is left starts and ends with a non-trimmable one. |
| JsText.TrimOfUnique | dom-manipulation/script.js:138-139 | Any two results of cutting that way are equal, so `Trim(s)` is the only such result. |
| JsText.TrimEmptyIff | script.js:86-96 | The trimmed field is empty exactly when the raw field consists of white space and line terminators only. This is the condition on which `addQuote` refuses. |
| JsText.TrimIdempotent | script.js:86-87 | Trimming twice is trimming once. |
| QuoteViews.FirstIndex | dom-manipulation/script.js:55 | The returned position holds `x`, and `x` does not occur before it. |
| QuoteViews.Distinct | dom-manipulation/script.js:55 | `[...new Set(s)]` has no repeated element, holds every element of `s`, and holds nothing that is not in `s`. |
| QuoteViews.DistinctFirstOccurrenceOrder | dom-manipulation/script.js:55 | The distinct values appear in the order of their first occurrence in `s`. |
| QuoteViews.DistinctUnique | dom-manipulation/script.js:55 | The order and membership facts above determine the result: any list without repeats, with the same members, in first-occurrence order, equals `Distinct(s)`. |
| QuoteViews.CategoryColumn | dom-manipulation/script.js:54 | `quotes.map(q => q.category)` has one entry per quote, and entry `i` is the category of quote `i`. |
| QuoteViews.Categories | dom-manipulation/script.js:54-55 | The drop-down entries start with `"all"` and include the category of every quote. QuoteViews.CategoriesSpec states the full characterisation. |
| QuoteViews.CategoriesSpec | dom-manipulation/script.js:54-55 | The drop-down starts with `"all"`. After that it lists every category of the list, nothing else, and each once, in order of first occurrence. |
| QuoteViews.AllListedTwiceIff | dom-manipulation/script.js:55 | `"all"` occurs twice in the drop-down exactly when some quote has the category `"all"`, and once otherwise. |
| QuoteViews.CategoriesAfterAppend | dom-manipulation/script.js:54-55 | After a quote is appended, the drop-down is unchanged if its category was already present, and gains that category at the end otherwise. |
| QuoteViews.Matching | dom-manipulation/script.js:84 | `quotes.filter(q => q.category === c)` is no longer than the list, and every entry has category `c`. QuoteViews.MatchingSpec adds counts and order. |
| QuoteViews.MatchingSpec | dom-manipulation/script.js:84 | `quotes.filter(q => q.category === c)` keeps only quotes of category `c`. It keeps each such quote as often as the list holds it, and keeps them in their original order (a subsequence). |
| QuoteViews.MatchingAppend | dom-manipulation/script.js:84 | Filtering distributes over concatenation. |
| QuoteViews.MatchingEmptyIff | dom-manipulation/script.js:84-91 | The filtered list is empty exactly when no quote has the selected category. |
| QuoteViews.Filtered | dom-manipulation/script.js:82-85 | The shown list is no longer than the list, and for a value other than `"all"` every entry has that category. QuoteViews.FilteredSpec gives the rest. |
| QuoteViews.FilteredSpec | dom-manipulation/script.js:82-85 | For `"all"` the list is shown unchanged. For any other value, only quotes of that exact category are shown, with their counts and their original order. |
| QuoteViews.FilteredInList | dom-manipulation/script.js:111-123 | Every position of the filtered list holds a quote of the list, and for a value other than `"all"` one of the selected category. |
| QuoteJson.Encode | dom-manipulation/script.js:17 | `JSON.stringify(quotes)` starts with `[`, and it is `[]` exactly for the empty list. QuoteJson.DecodeEncode and QuoteJson.EncodeDecode show it is inverse to QuoteJson.Decode. |
| QuoteJson.Decode | dom-manipulation/script.js:21-23 | An accepted text starts with `[`, and it reads as the empty list exactly when it is `[]`. The two round-trip lemmas tie it to QuoteJson.Encode. |
| QuoteJson.DecodeEncode | dom-manipulation/script.js:16-26 | The text `saveQuotes` writes reads back as exactly the list that was saved. |
| QuoteJson.EncodeDecode | dom-manipulation/script.js:20-26 | Any stored text the reader accepts is exactly what `JSON.stringify` writes for the list it reads. |
| QuoteJson.ParseStringBodyEscaped | dom-manipulation/script.js:17 | The escaped contents of any string, followed by the closing quote, read back as that string, and the text after it is left over. |
| QuoteJson.EscapedParsedStringBody | dom-manipulation/script.js:23 | Any string contents the reader accepts are the escaped form of what it returns. |
| DomManipulation.QuoteStore.constructor | dom-manipulation/script.js:234-240 | Page load with nothing stored under `quotes` gives the empty list. A readable stored list gives that list. In both cases the drop-down's value is then recorded under `lastFilter`. An unreadable stored text stops the handler with the list empty and storage unchanged. |
| DomManipulation.QuoteStore.SaveQuotes | dom-manipulation/script.js:16-18 | The key `quotes` now holds the encoded list, and no other key changes. |
| DomManipulation.QuoteStore.LoadQuotes | dom-manipulation/script.js:20-26 | Nothing stored (absent or the empty string) leaves the list as it was. Unreadable text also leaves it as it was. Otherwise the list becomes the stored one, and loading what `saveQuotes` stored for the current list leaves it unchanged. |
| DomManipulation.QuoteStore.SaveFilterPreference | dom-manipulation/script.js:32-35 | Only `lastFilter` changes. Loading the preference afterwards gives the saved value, or `"all"` for the empty string. |
| DomManipulation.QuoteStore.LoadFilterPreference | dom-manipulation/script.js:41-43 | The result is the stored `lastFilter` when present and non-empty, and `"all"` otherwise. It is never empty. |
| DomManipulation.QuoteStore.PopulateCategories | dom-manipulation/script.js:53-72 | The options are the category list. The preference it restores is the one stored before the call. It then filters with the drop-down's value, recording it under `lastFilter`. |
| DomManipulation.QuoteStore.FilterQuotes | dom-manipulation/script.js:78-104 | The selection is recorded under `lastFilter`. The shown list is the whole list for `"all"` and only the selected category otherwise. It is empty exactly when no quote has that category. |
| DomManipulation.QuoteStore.ShowRandomQuote | dom-manipulation/script.js:109-130 | It refuses exactly when the filtered list is empty. Otherwise it draws `floor(roll * length)` from the filtered list, and the quote is in the list and has the selected category unless that is `"all"`. |
| DomManipulation.QuoteStore.AddQuote | dom-manipulation/script.js:137-160 | An empty trimmed text or category changes neither the list nor storage. Otherwise exactly the trimmed quote is appended, `quotes` holds the new list's encoding, and `lastFilter` holds the drop-down's value. |
| DomManipulation.QuoteStore.ImportQuotes | dom-manipulation/script.js:180-205 | No file, a parse failure or a non-array changes nothing and reports its own outcome. An array is appended in order, so the length grows by its length, then saved and the drop-down rebuilt. |
| Script.QuoteList.constructor | script.js:2-7 | The list starts as the four given quotes, each with a non-empty text and category. |
| Script.QuoteList.AddQuote | script.js:85-113 | An empty trimmed text is refused first, then an empty trimmed category, and either refusal leaves the list unchanged. Otherwise exactly the trimmed quote is pushed at the end and the list only grows. The following `showRandomQuote` then always finds a quote to show: the quote at `RandomIndex(roll, length)` of the new list, which is the added quote only when that index is the last one. A refusal shows nothing. The invariant is kept. |
| Script.QuoteList.ShowRandomQuote | script.js:17-40 | It refuses exactly when the list is empty, and otherwise picks position `floor(roll * length)`, which lies inside the list. |

## Left out

- Rendering, which is not modelled: the filtered list, the option labels (`charAt(0).toUpperCase()`, a library call on Unicode text), the random quote's markup, `alert` messages, clearing the form fields, and `createAddQuoteForm` with the event wiring. Refusals and outcomes are returned values instead.
- `exportToJson` is not modelled. It builds a download through the browser (a `Blob`, an object URL and an anchor click).
- Reading the import file is not modelled. `FileReader`, its asynchronous `onload` and `JSON.parse` of the file are replaced by the already parsed input: no file, a parse failure, a non-array, or an array of quotes. An array holding elements that are not quotes is not represented.
- QuoteJson.Decode accepts only the exact text `JSON.stringify` writes for a list of two-field quotes with `text` before `category`. `JSON.parse` also accepts other spacing, other escape spellings, objects whose keys come in another order or carry extra properties, and values that are not arrays of quotes. The program can store such text itself: importing `[{"category":"c","text":"t"}]` saves it, and the next page load reads that list, where `DomManipulation.QuoteStore.constructor` stops with the list empty. The model treats all such stored text as unreadable. In the program only malformed JSON makes `JSON.parse` throw at dom-manipulation/script.js:23. Any other parsed value is assigned to `quotes` there. For a value that is not an array (`null`, `{}`), `populateCategories` then throws at line 54. An array whose elements are not quote objects (`[1]`) is assigned as it is, and `populateCategories` then throws at line 62 (`category.charAt` on a category that is not a string). In both cases the model keeps the list empty and storage unchanged.
- The value the drop-down reports after its options are rebuilt is defined by the browser's `<select>` element, since the restored preference may not be among the options. It enters as the `selected` parameter.
- `Math.random` is the `roll` parameter.
- Quotes.RandomIndex: the product `roll * n` is exact real arithmetic, while JavaScript rounds `Math.random() * n` to a double before flooring. For particular rolls the drawn index can therefore be one higher in the program than in the model, for example roll 0.8333333333333333 with n = 6 gives 5 there and 4 here. The bound `i < n` is unaffected.
- DomManipulation.QuoteStore.ImportQuotes: each imported element becomes a two-field record. `JSON.stringify` keeps an imported object's own key order and any extra properties, so the program can store text such as `[{"category":"c","text":"t"}]` where the model stores the text of `Encode`. Strings are sequences of Unicode scalar values, so the lone UTF-16 surrogates that JavaScript strings can hold, and that `JSON.stringify` writes as `\udxxx`, do not occur in the model.
- `quotes.push(...importedQuotes)` can throw a `RangeError` for an extremely long array (an engine limit on arguments). The model appends arrays of any length.
- `DomManipulation.QuoteStore.SaveQuotes`: its ensures says only what is stored. That the stored text reads back as the list is the separate lemma QuoteJson.DecodeEncode.
- Neither script contains any server synchronisation or conflict resolution, so none is modelled.
- When the saved filter names no current category, the code does not fall back to `"all"`. It only assigns the saved value to the drop-down (dom-manipulation/script.js:68), and the model follows the code.
- The quote record does not require non-empty fields. Imported quotes are appended without checks, and only the add form trims and checks its fields. In `script.js` the class invariant carries the non-empty property.
- The initial `showRandomQuote()` in `script.js` at page load is a plain call of `Script.QuoteList.ShowRandomQuote` on the initial list and is not modelled separately.
