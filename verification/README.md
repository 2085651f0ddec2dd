# A verified model of the craftsmen directory's data pipeline

The directory widget in `script.js` shows a published spreadsheet as a
searchable grid of cards. This project models the part of it that decides
what the user sees, and proves its properties in Dafny:

- reading the sheet's CSV text (`parseCSVLine`, `parseCSV`);
- building the filter chips (`extractUniqueValues`);
- the search over the loaded records (the `allData.filter` callback in
  `handleSearch`);
- the sort menu (`applySort`);
- the one-minute cache check (`isCacheValid`) and the load sequence of
  `loadData`: the cache first, then the endpoints in order;
- the card helpers `cleanPhoneNumber`, `escapeRegex`, `findFieldValue` and
  `getIconForColumn`.

Modules, in dependency order:

| file | module | contents |
|---|---|---|
| `seqs.dfy` | `Seqs` | `Option`, `Filter` (`Array.prototype.filter`), subsequences, distinctness |
| `text.dfy` | `Text` | `trim` and `\s` white space, `toLowerCase`, `includes`, `split`/`join` on one character, the code-unit order of the default `sort` |
| `records.dfy` | `Records` | a record as an ordered list of (key, value) fields with the assignment semantics of a plain JavaScript object for ordinary keys |
| `csv.dfy` | `Csv` | `parseCSVLine` (a function and the source's loop), `parseCSV` |
| `vocabulary.dfy` | `Vocabulary` | `extractUniqueValues` |
| `query.dfy` | `Query` | the search and filter test of `handleSearch` |
| `sorting.dfy` | `Sorting` | a stable insertion sort and `applySort` |
| `loader.dfy` | `Loader` | `isCacheValid`, the endpoint loop and the outcomes of `loadData` |
| `helpers.dfy` | `Helpers` | the four card helpers |

The browser is a set of parameters:

- the clock is `now`;
- the stored timestamp is `Option<int>`, already parsed;
- the stored records are `Option<seq<Record>>`, already decoded;
- each request's outcome is `Threw`, `NotOk` or `Ok(body)`;
- the active filter chips are a map from column to chosen values;
- `localeCompare(…, 'ar')` is an arbitrary comparator `(string, string) -> int`.

Strings are sequences of Unicode scalar values. The default sort's UTF-16
code-unit order is defined on them directly, and is proved equal to comparing
the UTF-16 encodings (`Text.CodeUnitLessIsUtf16Order`).

Two facts about `script.js` that are easy to misread:

- The chip values are sorted with the plain `sort()` (script.js:330), which
  uses code-unit order, not a locale-aware order; only the sort menu uses
  `localeCompare`.
- A cached copy stamped at T is fresh up to T+59999 ms and stale from
  T+60000 ms on, because the test is `cacheAge < CACHE_DURATION`
  (script.js:159).

## Model

| member | source | states |
|---|---|---|
| Csv.ParseCSVLine | script.js:291-311 | The character loop returns exactly `ParseLine(line)`. It returns one more field than there are commas outside quotes. |
| Csv.ParseLine | script.js:291-311 | A line has at least one field, and one more than its separating commas (those with an even number of quotes before them). Every field is trimmed and holds no `"`. |
| Csv.ParseLineSplit | script.js:299-303 | A comma with an even number of quotes before it splits the line: the fields of `a,b` are those of `a` followed by those of `b`. |
| Csv.ParseLineNoSeparator | script.js:296-310 | A line without a separating comma is one field: the line without its quotes, trimmed. With `ParseLineSplit` this fixes the contents of every field. |
| Csv.RawFieldsSplit | script.js:299-303 | The same split for the untrimmed fields. |
| Csv.RawFieldsNoSeparator | script.js:296-309 | Without a separating comma the one untrimmed field is the line without its quotes. |
| Csv.ScanShift | script.js:301-303 | After a separating comma the machine starts afresh: reading `b` next adds exactly the fields `b` reads to on its own. |
| Csv.Step | script.js:299-306 | One character: the quote flag changes exactly on a quote, and a field ends exactly on a comma outside quotes. |
| Csv.StepJoin | script.js:299-306 | One character: the text read so far grows by that character unless it is a quote. |
| Csv.Scan | script.js:296-307 | After any prefix, no field read so far holds a quote. |
| Csv.RawFields | script.js:296-308 | Before trimming, the fields joined with commas give back the line without its quotes. |
| Csv.ScanQuoteParity | script.js:299-300 | After any prefix, the `inQuotes` flag is set exactly when an odd number of quotes has been read. Doubled quotes are not an escape. |
| Csv.ScanFieldCount | script.js:301-303 | One field has ended per comma read outside quotes. |
| Csv.ScanPlain | script.js:304-306 | Characters that are neither quotes nor commas outside quotes only extend the current field. |
| Csv.QuotedField | script.js:299-308 | A quoted field keeps its commas and loses its quotes, and the field after the separating comma is trimmed: `"x",y` gives `x` and `y` trimmed. |
| Csv.NonBlankLines | script.js:268 | The kept lines are the non-blank pieces of `split('\n')`, in order, each as often as it occurs; blank pieces are dropped. |
| Csv.RowRecords | script.js:276-285 | At most one record per data line, each keyed by the deduplicated header. |
| Csv.ParseCSV | script.js:267-288 | Fewer than two non-blank lines give no records. Otherwise there is at most one record per data line, and every record's keys are the header's names, first occurrences only. |
| Csv.RowRecordsAppend | script.js:276-285 | Data lines are converted independently and in order, so the records keep the order of the rows. |
| Csv.RowRecordsSingle | script.js:277-284 | A data line whose fields are all blank is skipped. Any other line becomes the record made from the header and its fields. |
| Csv.BlankLineInsertion | script.js:268 | Inserting a blank or white-space-only line anywhere in the text does not change the parsed records. |
| Csv.BlankTextIsEmpty | script.js:268-269 | Text made of white space alone has no non-blank lines and parses to no records. |
| Records.MakeRecord | script.js:280-283 | The row object's keys are the headers in first-occurrence order. Each header's value is the field at the header's last position, or `''` when the row is short. Names that are not headers are absent. |
| Records.MakeRecordDistinct | script.js:280-283 | With distinct headers, the keys are the headers in order. Header i gets field i, or `''` past the end of the row, and extra fields are dropped. |
| Records.Assign | script.js:282 | `row[h] = v`: an existing key keeps its place and takes `v`, a new key is appended, and every other key keeps its value. |
| Text.Trim | script.js:302 | The result neither starts nor ends with white space. It is empty exactly when the input is all white space. |
| Text.TrimIdempotent | script.js:302 | Trimming twice is trimming once. |
| Text.JoinSplit | script.js:268 | Joining the pieces of `split('\n')` with newlines gives back the text. |
| Text.SplitJoin | script.js:268 | Splitting newline-free lines joined by newlines gives back the lines. |
| Text.CodeUnitLessIsUtf16Order | script.js:330 | The order the default `sort()` uses is lexicographic order on the UTF-16 encodings. |
| Text.CodeUnitLessTransitive | script.js:330 | The default sort order is transitive. |
| Text.CodeUnitLessTotal | script.js:330 | Any two different strings are ordered one way or the other. |
| Text.TrimLowerCommute | script.js:375 | Trimming and lower-casing commute. |
| Text.Split | script.js:268 | `split('\n')` gives one more piece than there are newlines, and no piece holds a newline. |
| Text.SplitPrefix | script.js:268 | A separator-free piece followed by the separator is the first piece of the split. |
| Vocabulary.ExtractUniqueValues | script.js:314-333 | With no data the previous vocabulary is kept. Otherwise the vocabulary's columns are first-record columns, in the same order. |
| Vocabulary.VocabularyExact | script.js:318-330 | A column has chips exactly when it is a key of the first record and its set of trimmed non-blank values has 1 to 20 members. The chips are then that set, strictly ascending in code-unit order. |
| Vocabulary.VocabularyBounds | script.js:325-329 | Every chip list has 1 to 20 entries, each non-empty and trimmed. |
| Vocabulary.Entries | script.js:321-332 | At most one entry per column; each entry's column is one of the columns, and its chips are that column's values, between one and twenty of them. |
| Vocabulary.ColumnValues | script.js:321-330 | The collected values are strictly sorted in code-unit order, hence free of repeats. |
| Vocabulary.ColumnValuesElems | script.js:321-327 | The collected values are exactly the trimmed non-blank values the column takes across the records. |
| Vocabulary.ColumnValuesCount | script.js:329 | The number of chips equals the size of the set the source tests. |
| Vocabulary.SortedUnique | script.js:330 | Two strictly sorted lists with the same elements are equal, so every sorting algorithm gives the same chip order. |
| Vocabulary.InsertSorted | script.js:326-330 | Adding a value to a sorted value set keeps it sorted and adds exactly that value. |
| Query.NormalizeTerm | script.js:375 | The term is trimmed and has no ASCII capitals. It is empty exactly when the typed text is blank. |
| Query.AnyValueMatchesExists | script.js:386-388 | The `some` scan over the values succeeds exactly when some non-empty value, lower-cased, contains the term. |
| Query.Matches | script.js:382-402 | The callback holds exactly when both the search test (some non-empty value contains the term) and the filter test hold. |
| Query.Search | script.js:382-402 | Every record kept passes the callback, and no more records are kept than there are. |
| Query.HandleSearch | script.js:374-402 | Every record shown passes the search test and every active column. |
| Query.SearchExact | script.js:382-402 | The result is the matching records in their original order, each as often as in the data, and nothing else. |
| Query.EmptyQueryShowsAll | script.js:382-402 | A blank search box with no active chips shows all the data. |
| Query.SearchIdempotent | script.js:382-402 | Searching the result again with the same query changes nothing. |
| Query.SearchIgnoresCase | script.js:375 | Texts that differ only in letter case give the same result. |
| Query.SearchIgnoresSurroundingSpace | script.js:375 | Texts whose trimmed forms agree up to letter case give the same result. |
| Query.NewColumnNarrows | script.js:393-399 | Activating a new column narrows the old result by that column alone (AND across columns). |
| Query.ColumnValuesOr | script.js:394-397 | Within one column, a record passes the union of two value lists exactly when it passes either list (OR within a column). |
| Sorting.TitleColumn | script.js:599-600 | The title column is the first key of the first loaded record, or `"undefined"` when that record has no key. |
| Sorting.Comparator | script.js:601-611 | The comparator looks at the two titles alone, and any mode other than the two name modes ties everything. |
| Sorting.ComparatorReversed | script.js:606-609 | Descending order compares the two records the other way round from ascending order. |
| Sorting.ApplySort | script.js:593-617 | `'default'` gives back the loaded data, whatever the current view. Any other mode gives a permutation of the current view. |
| Sorting.ApplySortSorted | script.js:599-610 | Under a comparator that orders every pair, `'name-asc'` is ascending by the title column and `'name-desc'` is descending. |
| Sorting.ApplySortUnknownMode | script.js:611 | Any other mode leaves the view's order unchanged. |
| Sorting.ApplySortStable | script.js:602-612 | Records with the same title keep their relative order in every mode. |
| Sorting.SortBy | script.js:602 | The sort rearranges its input without losing or adding anything. |
| Sorting.SortBySorted | script.js:602 | With a total comparator, the result is sorted. |
| Sorting.SortByStable | script.js:602 | Elements that all tie with one another come out in input order. |
| Sorting.SortByOfSorted | script.js:602 | An already sorted input is unchanged. |
| Loader.IsCacheValid | script.js:153-163 | With no usable timestamp the cache is never fresh. |
| Loader.CacheBoundary | script.js:158-159 | A copy stamped at T is fresh at T+59999 and stale at T+60000. |
| Loader.CacheStaysStale | script.js:158-159 | A stale copy stays stale as time goes on. |
| Loader.FreshCacheShown | script.js:195-207 | A cached copy whose age `now - t` is under a minute, a stamp in the future included (the test at line 159), is shown even when it holds no records, and no request is made. |
| Loader.FetchLoopSpec | script.js:211-227 | The loop stops after the first OK response with a non-blank body and returns that body. With none, every endpoint is tried and the text is the last OK body, or absent. |
| Loader.FetchFromSpec | script.js:214-227 | The same, from any loop state: the loop ends with `Expected`, the outcome read off the first usable response or the last OK body. |
| Loader.ExpectedStep | script.js:217-226 | Skipping a response that is not usable (an error, a bad status or a blank body) leaves the expected outcome unchanged. |
| Loader.FetchFrom | script.js:214-227 | The loop makes at least as many requests as it had made, and at most one more per endpoint. |
| Loader.FirstUsable | script.js:217-220 | It finds the first OK response with a non-blank body. |
| Loader.LastOkBody | script.js:217-218 | There is a body exactly when some response was OK; it is the body of an OK response after which no response is OK. |
| Loader.LoadData | script.js:189-240 | The cache is used exactly when it is fresh and holds data, and then no request is made. Only a non-empty network result is saved and shown. A load failure leaves the page unchanged. Empty data clears the loaded records. |
| Loader.LoadDataUsable | script.js:214-244 | A usable response at position i means i+1 requests were made and its body was parsed. It gives empty data or is shown. |
| Loader.LoadFailedExactly | script.js:214-231 | Outside the cache path, the load fails exactly when no response is usable and the last OK body is missing or empty. Every endpoint has then been tried. |
| Loader.WhitespaceBodyIsEmptyData | script.js:218-237 | A last OK body of white space alone ends with the empty-data error, not load failure, and clears the loaded records. |
| Helpers.CleanPhoneNumber | script.js:504-506 | No white space, `-`, `(`, `)` or `+` is left, and the result is no longer than the input. |
| Helpers.CleanPhoneNumberExact | script.js:504-506 | The result is the input with exactly those characters removed. Every other character stays, in order and with its multiplicity. |
| Helpers.CleanPhoneNumberIdempotent | script.js:504-506 | Cleaning twice is cleaning once. |
| Helpers.CleanPhoneNumberOfClean | script.js:504-506 | A number without punctuation is unchanged. |
| Helpers.EscapeRegex | script.js:568-570 | The result is a literal pattern, one character longer per special character. |
| Helpers.UnescapeEscapeRegex | script.js:568-570 | The escaped pattern stands for exactly the original text. |
| Helpers.EscapeRegexInjective | script.js:568-570 | Different texts escape to different patterns. |
| Helpers.FirstColumnContaining | script.js:495 | It finds the first column whose lower-cased name contains the lower-cased candidate. |
| Helpers.Candidate | script.js:495-498 | A name no column matches yields nothing; a value yielded is the non-empty trimmed value of the first matching column; and a first matching column with a non-empty name and a non-blank value always yields its trimmed value. |
| Helpers.FirstYield | script.js:494-500 | Trying the names in order yields nothing exactly when no name yields a value, and otherwise yields what some name yields. |
| Helpers.FindFieldValue | script.js:492-501 | The result is absent exactly when no candidate name yields a value, and any value returned is non-empty and trimmed. |
| Helpers.FindFieldValueFirst | script.js:494-499 | The result is the value of the first candidate name, in priority order, that yields one; later names are not consulted. |
| Helpers.FirstYieldFirst | script.js:494-500 | The loop over candidate names returns what the first name yielding a value yields. |
| Helpers.FindFieldValueFirstColumnOnly | script.js:495-498 | A blank first matching column hides a filled later one that also matches. |
| Helpers.FirstRuleIcon | script.js:536-548 | The icon is the default or some rule's icon, and whenever a rule applies it is the icon of a rule that applies. |
| Helpers.FirstRuleIconSpec | script.js:533-549 | The icon is that of the first rule with a matching keyword. |
| Helpers.FirstRuleIconDefault | script.js:546-548 | With no rule matching, the icon is the default one. |
| Helpers.GetIconForColumn | script.js:533-549 | The icon is always one of the six the cascade names. |
| Helpers.EmailAddressGetsMapMarker | script.js:538-541 | "Email Address" gets the map marker: the address rule comes first. |

## Left out

- The page itself: DOM rendering, event wiring, the debounce timer,
  `highlightText`/`escapeHtml`, sharing and the forms. They have no logic
  beyond what is modelled.
- `fetch`, `localStorage`, `JSON.parse`/`stringify` and `Date.now`. They
  become the parameters described above. The timestamp written by
  `saveToCache` is not modelled; only the saved records are.
- The number of endpoints. The source has three URLs; the model takes any
  sequence of outcomes.
- Real `localeCompare` collation. It is an arbitrary comparator, and
  sortedness is proved for comparators that order every pair.
- Text.LowerChar: `toLowerCase` maps only the ASCII capitals. Arabic has no
  case, and other scripts' case mappings are not modelled.
- Records.Keys: integer-like keys, which JavaScript lists first, are not
  hoisted; keys keep insertion order. A header named `__proto__` is also
  modelled as an ordinary key: in JavaScript, `row['__proto__'] = v` with a
  string `v` creates no key, while `Records.Assign` and `Records.MakeRecord`
  add a `__proto__` field.
- Vocabulary.ColumnValues: builds the chip list by inserting into a sorted
  list, not by sorting `Array.from(set)`. `Vocabulary.SortedUnique` shows
  the two give the same list.
- Sorting.SortBy: an insertion sort stands in for the engine's stable
  sort. The two agree whenever the comparator is a consistent total
  preorder; for inconsistent comparators the engine's order is
  implementation-defined.
- Sorting.ApplySort: requires loaded data for the name modes. With
  `allData` empty, `Object.keys(allData[0])` at script.js:599 throws a
  `TypeError` and the view is left as it was; that error path is not
  modelled.
- Loader.IsCacheValid: `parseInt` is abstracted. A stamp that does not
  parse is `None`, which matches the source's false result for `NaN`.
