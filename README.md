# FishySearch in Dafny

FishySearch collects product listings from several web shops into one dated JSON file a
day, and shows the newest file in a browser table with filters. This project models the three
parts of it that decide something, and proves what they promise:

- **The aggregator** (`backend/aggregator.py`), in module `Aggregation`. For each configured
  shop it fetches the catalog page and turns every matched container into a product record:
  the shop name, the main-page attributes, and `details` read from the container's subpage.
  The subpage link is percent-encoded before it is fetched. Records without a usable name,
  or whose name holds an excluded keyword, are dropped. The shops' records are concatenated
  in configuration order and saved as `<results_dir>/<YYMMDD>_result.json`, at most once a day.
  The class `Aggregator` holds the loops of the source (`ParseSubpage`, `ProcessContainer`,
  `ParseMainPage`, `Run`). Each method is proved to compute a specification function, and
  the properties are lemmas about those functions.
- **The row filter** (`frontend/filter.js`), in module `RowFilter`. It covers which filter rows
  are active, the one search predicate `applyFilters` installs, the column choices, the state
  `saveCurrentState` saves and how `addFilterRow` restores it. A select set to a value it does
  not offer selects nothing and reads `null`, as jQuery's `val` does.
- **The result table** (`frontend/main.js`), in module `ResultTable`:
  - which result files `getResultFiles` finds in the directory listing, and which two it loads;
  - how `markNewEntries` tags entries NEW or existing;
  - the column order `getColumnStructure` builds;
  - the titles and cell values of `initializeTable`;
  - the truncation in `createExpandableContent`.

Supporting modules:
- `Wrappers`: `Option` and `Result`.
- `Strings`:
  - Python's `strip` and JavaScript's `trim`, with their own whitespace sets;
  - substring, prefix and suffix tests;
  - lexicographic order;
  - decimal numerals.
- `Objects`: JSON values and insertion-ordered dictionaries (`Get` and `Put` on a sequence of
  entries, as a Python dict or a JS object keeps them).
- `PercentEncoding`:
  - UTF-8;
  - Python's `urllib.parse.quote` on bytes (section 2.1 of RFC 3986; letters, digits and `_.-~`
    always pass through);
  - its inverse.
- `Snapshot`: dates and the `YYMMDD_result.json` file name.

Foreign code comes in as values:
- HTML parsing and selector matching: a `Page` and a `Container`, which map selectors to
  elements.
- The network, `urljoin`, `urlsplit`, `urlunsplit` and `str.upper`: the record `Externals`.
- The clock: date parameters.
- The file system: the set of existing paths.
- `toLowerCase` and `toUpperCase`: the parameters `lower` and `upper`.

Where this model states something the documentation of the system leaves unsaid, it follows
the code:
- `quote` escapes every byte outside its safe set, so a literal `%` in a subpage path or query
  becomes `%25` (`PercentReencoded`). The escaping is not limited to non-ASCII characters.
- An `isNew` column is always added. Items never carry that key, so it is an always-empty column.
- `toUpperCase` is applied to the first character of a column name only, so a camelCase key
  never matches a filter column after lower-casing (`FilterColumnOfTitle`).
- A dictionary that comes from a JSON document has distinct keys. Several lemmas assume that
  (`DistinctKeys`).

## Model

| member | source | states |
|---|---|---|
| Aggregation.Aggregator.constructor | FishySearch_v0.1/backend/aggregator.py:13-16 | the aggregator holds the loaded configuration (shops in file order) and the results directory |
| Aggregation.Aggregator.ResultFilename | FishySearch_v0.1/backend/aggregator.py:112-115 | the result path is the results directory joined with today's `YYMMDD_result.json`, so it ends with that name |
| Aggregation.Aggregator.ParseSubpage | FishySearch_v0.1/backend/aggregator.py:93-110 | the loop over subpage attributes, with the `valid_content` flag, computes exactly the subpage outcome: a fetch failure, or the details record |
| Aggregation.Aggregator.ProcessContainer | FishySearch_v0.1/backend/aggregator.py:46-89 | one container's pass through the `try` body is exactly its outcome: the record kept, skipped by the name guards, or raised |
| Aggregation.Aggregator.ParseMainPage | FishySearch_v0.1/backend/aggregator.py:35-91 | the loop over containers returns exactly the kept records, in container order, and `[]` when no container matches |
| Aggregation.Aggregator.Run | FishySearch_v0.1/backend/aggregator.py:130-145 | `run` returns the skip, critical-failure or completed message and saves the concatenation exactly as the run specification says |
| Aggregation.EncodeParts | FishySearch_v0.1/backend/aggregator.py:63-69 | scheme, netloc and fragment are unchanged; path and query are quoted with safe sets `/` and `&=`, and each decodes back to the original text |
| Aggregation.JoinPath | FishySearch_v0.1/backend/aggregator.py:115 | the joined path ends with the file name |
| Aggregation.UsableName | FishySearch_v0.1/backend/aggregator.py:77-80 | a name that passes the guard is a string that is not blank after `strip` |
| Aggregation.CollectRecords | FishySearch_v0.1/backend/aggregator.py:45-89 | at most one record per container; every record is the kept outcome of some container |
| Aggregation.MainPageRecords | FishySearch_v0.1/backend/aggregator.py:40-43 | no matched container gives `[]`; every record comes from a matched container that kept it |
| Aggregation.SubpageEntries | FishySearch_v0.1/backend/aggregator.py:100-106 | one details entry per subpage attribute |
| Aggregation.AnyTextStep | FishySearch_v0.1/backend/aggregator.py:102-104 | `valid_content` after one more attribute is its old value or that attribute having text |
| Aggregation.CollectAppend | FishySearch_v0.1/backend/aggregator.py:45-89 | collecting two runs of containers is the concatenation of collecting each: order is kept |
| Aggregation.CollectStep | FishySearch_v0.1/backend/aggregator.py:86 | one more container appends exactly its kept record, if any |
| Aggregation.CollectOne | FishySearch_v0.1/backend/aggregator.py:86-89 | a single container contributes its kept record or nothing |
| Aggregation.RaisedSkipsOnlyItself | FishySearch_v0.1/backend/aggregator.py:88-89 | an exception in one container drops only that container; the records before and after are kept |
| Aggregation.KeptInPlace | FishySearch_v0.1/backend/aggregator.py:86 | a kept container's record sits between the records of the containers before and after it |
| Aggregation.MainpageOtherKeys | FishySearch_v0.1/backend/aggregator.py:47-56 | a key no main-page attribute names keeps its initial value: `shop` is the shop name, anything else is absent |
| Aggregation.MainpageAttribute | FishySearch_v0.1/backend/aggregator.py:50-56 | an attribute whose selector matched is `urljoin(base, src)` for an image with `src` and the stripped text otherwise; one that matched nothing leaves the key as it was |
| Aggregation.WithDetailsOtherKeys | FishySearch_v0.1/backend/aggregator.py:70-74 | attaching details changes no key other than `details` |
| Aggregation.KeptRecord | FishySearch_v0.1/backend/aggregator.py:47-86 | a kept record has `shop` equal to the shop name (unless an attribute is itself called `shop`), a name that is not blank, and no excluded keyword in its upper-cased name |
| Aggregation.KeptAttribute | FishySearch_v0.1/backend/aggregator.py:50-86 | in a kept record every main-page attribute other than `details` has the value its selector produced, or is absent |
| Aggregation.SubpageLinkEncoded | FishySearch_v0.1/backend/aggregator.py:59-69 | the subpage URL is `urlunsplit` of the encoded parts of `urljoin(base, href)` |
| Aggregation.NoLinkNoDetails | FishySearch_v0.1/backend/aggregator.py:59-60 | without a link element or with an empty `href` nothing is fetched and no `details` key is added |
| Aggregation.SubpageFieldsEntries | FishySearch_v0.1/backend/aggregator.py:100-106 | with distinct attribute names, the loop's dictionary is one entry per attribute, in order |
| Aggregation.SubpageFieldsValue | FishySearch_v0.1/backend/aggregator.py:101-106 | each attribute maps to its element's non-empty text, or to `None` |
| Aggregation.SubpageFieldsAllNull | FishySearch_v0.1/backend/aggregator.py:105-106 | when no attribute has text, every entry is `None` |
| Aggregation.SubpageUrlTracked | FishySearch_v0.1/backend/aggregator.py:98-109 | `details["url"]` is the fetched, encoded URL if and only if some attribute had text |
| Aggregation.SubpageDetailsShape | FishySearch_v0.1/backend/aggregator.py:97-110 | the details are the attribute entries in order, followed by `url` exactly when some text was found |
| Aggregation.SubpageFailureMarked | FishySearch_v0.1/backend/aggregator.py:70-74 | a failed fetch gives the `Network error: ` message, and `details` becomes exactly `{"error": "Subpage failed to load"}` |
| Aggregation.EffectiveNameFallback | FishySearch_v0.1/backend/aggregator.py:77 | the name is the top-level `name` when truthy, and otherwise the truthy `details.name`, if any |
| Aggregation.EmptyKeywordExcludes | FishySearch_v0.1/backend/aggregator.py:81-82 | an empty keyword is contained in every name |
| Aggregation.NothingKeptWithEmptyKeyword | FishySearch_v0.1/backend/aggregator.py:77-86 | with an empty keyword configured no container is kept |
| Aggregation.EmptyKeywordEmptiesPage | FishySearch_v0.1/backend/aggregator.py:35-91 | with an empty keyword configured the page yields `[]` |
| Aggregation.AggregateAppend | FishySearch_v0.1/backend/aggregator.py:137-140 | the shops' results are concatenated in configuration order, and the first failing shop's error wins |
| Aggregation.AggregateOne | FishySearch_v0.1/backend/aggregator.py:139-140 | one shop's contribution is its fetched page's records |
| Aggregation.AggregateFailsFrom | FishySearch_v0.1/backend/aggregator.py:139-145 | a failed catalog fetch, after the earlier shops succeeded, ends the whole run with that fetch's error |
| Aggregation.MainpageFailureStays | FishySearch_v0.1/backend/aggregator.py:50-89 | once an attribute raises, the rest of the container is abandoned with that error |
| Aggregation.RunSkipsWhenDone | FishySearch_v0.1/backend/aggregator.py:117-133 | when today's file exists, `run` returns the skip message, saves nothing and does not depend on the network |
| Aggregation.RunSaves | FishySearch_v0.1/backend/aggregator.py:135-143 | a file is saved if and only if today's file is missing and every shop succeeded; it holds the concatenation, at the path of the save date |
| Aggregation.RunCriticalFailure | FishySearch_v0.1/backend/aggregator.py:144-145 | a failure under the `try` returns `Critical failure: ` with its message and saves nothing |
| Aggregation.RunReportsCount | FishySearch_v0.1/backend/aggregator.py:143 | the completed message is `Completed: N items aggregated` with N the decimal number of saved records |
| Aggregation.RunOncePerDay | FishySearch_v0.1/backend/aggregator.py:132-142 | after a run saves, a later run on the same day skips |
| Strings.TrimBounds | FishySearch_v0.1/backend/aggregator.py:78 | stripping removes exactly the leading and trailing whitespace and leaves a slice of the input |
| Strings.TrimStartBounds | FishySearch_v0.1/frontend/filter.js:144 | trimming the start removes exactly the leading whitespace |
| Strings.TrimEndBounds | FishySearch_v0.1/frontend/filter.js:144 | trimming the end removes exactly the trailing whitespace |
| Strings.TrimEmptyIff | FishySearch_v0.1/backend/aggregator.py:78 | a string strips to empty if and only if it is all whitespace |
| Strings.TrimIdempotent | FishySearch_v0.1/frontend/filter.js:144 | trimming twice is trimming once |
| Strings.ContainsAt | FishySearch_v0.1/frontend/filter.js:175 | substring containment means an occurrence at some position |
| Strings.EmptyContained | FishySearch_v0.1/backend/aggregator.py:82 | the empty string is contained in every string |
| Strings.PrefixSuffixContained | FishySearch_v0.1/frontend/filter.js:177-178 | a prefix or a suffix is contained |
| Strings.LexReflexive | FishySearch_v0.1/frontend/main.js:15 | the sort order is reflexive |
| Strings.LexTotal | FishySearch_v0.1/frontend/main.js:15 | the sort order is total |
| Strings.LexAntisymmetric | FishySearch_v0.1/frontend/main.js:15 | the sort order is antisymmetric |
| Strings.LexTransitive | FishySearch_v0.1/frontend/main.js:15 | the sort order is transitive |
| Strings.LexAppend | FishySearch_v0.1/frontend/main.js:15 | comparing two names with equal-length heads compares the heads first, then the tails |
| Strings.DigitChar | FishySearch_v0.1/backend/aggregator.py:143 | a digit value gives a digit character |
| Strings.NatToString | FishySearch_v0.1/backend/aggregator.py:143 | a count prints as digits without a leading zero |
| Strings.DecimalRoundTrip | FishySearch_v0.1/backend/aggregator.py:143 | the printed count reads back as the count |
| Objects.Get | FishySearch_v0.1/backend/aggregator.py:77 | a found value is stored under that key |
| Objects.GetKeys | FishySearch_v0.1/backend/aggregator.py:77 | a lookup fails exactly for absent keys, and otherwise finds the first entry with that key |
| Objects.Put | FishySearch_v0.1/backend/aggregator.py:54-56 | after an assignment the key holds the new value and every other key is unchanged |
| Objects.KeysCons | FishySearch_v0.1/frontend/main.js:38 | the keys of an entry followed by a dictionary are that entry's key followed by the dictionary's keys |
| Objects.PutKeys | FishySearch_v0.1/backend/aggregator.py:103-106 | assigning an existing key keeps the key order; a new key is appended |
| Objects.PutAppends | FishySearch_v0.1/backend/aggregator.py:109 | assigning a new key appends one entry |
| Objects.GetAt | FishySearch_v0.1/frontend/main.js:111 | with distinct keys every entry is found by its key |
| Objects.PutDistinct | FishySearch_v0.1/backend/aggregator.py:103 | assignment keeps keys distinct |
| Objects.PutSame | FishySearch_v0.1/frontend/main.js:78-81 | assigning the value a key already holds changes nothing |
| Objects.PutPut | FishySearch_v0.1/frontend/main.js:78-81 | the second of two assignments to a key wins |
| PercentEncoding.CharUtf8 | FishySearch_v0.1/backend/aggregator.py:64 | a character encodes to one to four UTF-8 bytes, one byte exactly for ASCII, and only bytes of 0x80 and above otherwise |
| PercentEncoding.DecodeTwo | FishySearch_v0.1/backend/aggregator.py:64 | a two-byte UTF-8 sequence decodes back to its character |
| PercentEncoding.DecodeThree | FishySearch_v0.1/backend/aggregator.py:64 | a three-byte UTF-8 sequence decodes back to its character |
| PercentEncoding.DecodeFour | FishySearch_v0.1/backend/aggregator.py:64 | a four-byte UTF-8 sequence decodes back to its character |
| PercentEncoding.DecodeCharUtf8 | FishySearch_v0.1/backend/aggregator.py:64 | every character's encoding decodes back to it, whatever follows |
| PercentEncoding.Utf8RoundTrip | FishySearch_v0.1/backend/aggregator.py:64-65 | UTF-8 decoding inverts `encode('utf8')` |
| PercentEncoding.Utf8Append | FishySearch_v0.1/backend/aggregator.py:64 | UTF-8 encoding distributes over concatenation |
| PercentEncoding.HexDigitValue | FishySearch_v0.1/backend/aggregator.py:64 | an escape's hex digit reads back as its value |
| PercentEncoding.Quote | FishySearch_v0.1/backend/aggregator.py:64-65 | quoted text holds only ASCII safe characters, `%` and hex digits |
| PercentEncoding.UnquoteQuoteByte | FishySearch_v0.1/backend/aggregator.py:64-65 | one quoted byte unquotes to that byte |
| PercentEncoding.UnquoteQuote | FishySearch_v0.1/backend/aggregator.py:64-65 | unquoting inverts quoting when `%` is not safe |
| PercentEncoding.QuoteAppend | FishySearch_v0.1/backend/aggregator.py:64-65 | quoting distributes over concatenation |
| PercentEncoding.ComponentRoundTrip | FishySearch_v0.1/backend/aggregator.py:63-69 | the encoded path and query are ASCII, and decode back to the original text |
| PercentEncoding.QuoteChar | FishySearch_v0.1/backend/aggregator.py:64-65 | for any safe set, an ASCII character that passes through is kept; any other becomes one `%XX` escape per UTF-8 byte |
| PercentEncoding.QuotePathChar | FishySearch_v0.1/backend/aggregator.py:64 | in the path, an ASCII letter, digit, `_.-~` or `/` is kept; any other character becomes one `%XX` escape per UTF-8 byte |
| PercentEncoding.QuoteQueryChar | FishySearch_v0.1/backend/aggregator.py:65 | in the query, an ASCII letter, digit, `_.-~`, `&` or `=` is kept; any other character becomes one `%XX` escape per UTF-8 byte |
| PercentEncoding.SeparatorsKept | FishySearch_v0.1/backend/aggregator.py:64-65 | the path keeps `/` and escapes `&` and `=` as `%26` and `%3D`; the query keeps `&` and `=` and escapes `/` as `%2F` |
| PercentEncoding.EscapedLength | FishySearch_v0.1/backend/aggregator.py:64-65 | bytes that all need escaping quote to three characters each |
| PercentEncoding.PercentReencoded | FishySearch_v0.1/backend/aggregator.py:64-65 | a literal `%` is re-encoded as `%25` in both path and query |
| Snapshot.Stamp | FishySearch_v0.1/backend/aggregator.py:114 | `%y%m%d` gives six digits |
| Snapshot.ResultNameRecognised | FishySearch_v0.1/frontend/main.js:13 | the name the aggregator writes is one the viewer's pattern recognises |
| Snapshot.TwoDigitsOrder | FishySearch_v0.1/backend/aggregator.py:114 | two-digit fields compare as text as they do as numbers |
| Snapshot.ResultNameOrder | FishySearch_v0.1/frontend/main.js:15 | result names compare as text exactly as their dates (year within the century) compare |
| Snapshot.TwoDigitsInjective | FishySearch_v0.1/backend/aggregator.py:114 | distinct two-digit values print differently |
| Snapshot.ResultNameInjective | FishySearch_v0.1/backend/aggregator.py:114-115 | two days share a result name if and only if they agree on year within the century, month and day |
| Snapshot.DateKeyInjective | FishySearch_v0.1/backend/aggregator.py:114 | equal date keys mean the same year within the century, month and day |
| RowFilter.ReadRow | FishySearch_v0.1/frontend/filter.js:141-145 | a filter keeps the row's column and operator and its trimmed value, which trimming again leaves alone |
| RowFilter.GetCurrentFilters | FishySearch_v0.1/frontend/filter.js:137-151 | the loop over filter rows returns exactly the active filters |
| RowFilter.ActiveFiltersAppend | FishySearch_v0.1/frontend/filter.js:139-149 | filter rows are kept in order |
| RowFilter.RowKeptIff | FishySearch_v0.1/frontend/filter.js:146-148 | a row is kept if and only if its operator is `empty` or its trimmed value is non-empty |
| RowFilter.ActiveFiltersFromRows | FishySearch_v0.1/frontend/filter.js:141-148 | every active filter is active, has a trimmed value and comes from some row |
| RowFilter.SpreadMisses | FishySearch_v0.1/frontend/filter.js:168 | spreading an object that lacks a key leaves that key as it was |
| RowFilter.SpreadGet | FishySearch_v0.1/frontend/filter.js:168 | after a spread a key holds the spread object's value if it has one, and the base value otherwise |
| RowFilter.RowPassesAll | FishySearch_v0.1/frontend/filter.js:170-182 | a row passes if and only if every active filter holds of it |
| RowFilter.DetailsOverride | FishySearch_v0.1/frontend/filter.js:168 | a `details` key overrides the top-level key of the same name; otherwise the top-level value is used |
| RowFilter.OperatorMeaning | FishySearch_v0.1/frontend/filter.js:174-181 | `contains` is substring, `starts` prefix, `ends` suffix, `empty` an empty cell, and an unknown operator passes |
| RowFilter.EqualsIsStrongest | FishySearch_v0.1/frontend/filter.js:175-178 | a cell equal to the value also contains, starts and ends with it |
| RowFilter.MissingCellIsEmpty | FishySearch_v0.1/frontend/filter.js:171-179 | a missing or null cell compares as `''`: `empty` holds, and `equals` holds only for the empty value |
| RowFilter.CaseInsensitive | FishySearch_v0.1/frontend/filter.js:171-172 | two filter values with the same lower-case form filter alike |
| RowFilter.InstalledSearch | FishySearch_v0.1/frontend/filter.js:162-166 | at most one predicate is installed, and none exactly when no filter is active |
| RowFilter.ShownAfterApply | FishySearch_v0.1/frontend/filter.js:161-187 | after `applyFilters` a row is shown if and only if it passes every active filter; with none, every row is shown |
| RowFilter.SearchHooks.constructor | FishySearch_v0.1/frontend/filter.js:162 | no search predicate is installed at first |
| RowFilter.SearchHooks.ApplyFilters | FishySearch_v0.1/frontend/filter.js:161-166 | the search list is reset and then holds the one predicate for the current filters, so repeated calls leave the same state |
| RowFilter.ColumnChoices | FishySearch_v0.1/frontend/filter.js:98-105 | the loop over headers returns exactly the filterable columns |
| RowFilter.FilterableColumnsIff | FishySearch_v0.1/frontend/filter.js:100-105 | a column is offered if and only if it is some lower-cased header other than `image` and `url` |
| RowFilter.FilterableColumnsAppend | FishySearch_v0.1/frontend/filter.js:100-105 | columns are offered in header order |
| RowFilter.RestoreRoundTrip | FishySearch_v0.1/frontend/filter.js:107-120 | a saved filter whose column is an offered lower-case name and whose operator is offered, with a trimmed value, is restored to a row that reads back as the same filter |
| RowFilter.SavedColumnLowerCased | FishySearch_v0.1/frontend/filter.js:111 | a truthy saved column is lower-cased before it is selected: when that name is offered, the restored row filters on it |
| RowFilter.UnofferedColumnFallsBack | FishySearch_v0.1/frontend/filter.js:107-111 | a saved column no longer offered selects nothing, so the row reads its column as `null`; restoring that again selects the first offered column |
| RowFilter.RestoreAll | FishySearch_v0.1/frontend/filter.js:49-54 | restoring a list of restorable, active, trimmed filters one row each gives rows whose active filters are that list |
| RowFilter.StateRoundTrip | FishySearch_v0.1/frontend/filter.js:153-157 | the state saved by `saveCurrentState` restores to rows with the same active filters when each is restorable; the table order comes back as the first sort key alone, or `[0, 'asc']` when there was none, and saving again saves the same state |
| ResultTable.AddAllFacts | FishySearch_v0.1/frontend/main.js:36-47 | adding to an insertion-ordered set keeps its old elements first, holds exactly the old and new elements, and keeps it duplicate-free |
| ResultTable.AddAllAppend | FishySearch_v0.1/frontend/main.js:37-47 | adding two runs of keys is adding one after the other |
| ResultTable.Without | FishySearch_v0.1/frontend/main.js:54 | the remaining columns are exactly those not among the priority columns |
| ResultTable.SuffixChars | FishySearch_v0.1/frontend/main.js:13 | the `_result.json` suffix holds no digit, and its first character does not recur in its next five |
| ResultTable.NoOverlap | FishySearch_v0.1/frontend/main.js:13 | two result names cannot overlap in a text |
| ResultTable.MatchesSound | FishySearch_v0.1/frontend/main.js:13-14 | every match is a result name occurring in the listing |
| ResultTable.MatchesComplete | FishySearch_v0.1/frontend/main.js:13-14 | every occurrence of a result name in the listing is matched |
| ResultTable.ResultMatchesIff | FishySearch_v0.1/frontend/main.js:13-14 | a string is matched if and only if it is a result name that occurs in the listing |
| ResultTable.SavedNameMatched | FishySearch_v0.1/frontend/main.js:13-14 | the name the aggregator writes, on its own, is matched once |
| ResultTable.InsertDesc | FishySearch_v0.1/frontend/main.js:15 | inserting into a descending list keeps it descending and adds exactly that element |
| ResultTable.InsertAtFront | FishySearch_v0.1/frontend/main.js:15 | an element not below the head goes in front |
| ResultTable.InsertBehindHead | FishySearch_v0.1/frontend/main.js:15 | an element below the head goes behind it |
| ResultTable.SortDesc | FishySearch_v0.1/frontend/main.js:15 | the sort returns a descending permutation of its input |
| ResultTable.NewestFirst | FishySearch_v0.1/frontend/main.js:15 | in the sorted list an earlier file's date is not older than a later file's |
| ResultTable.TwiceInMultiset | FishySearch_v0.1/frontend/main.js:13-15 | a repeated element occurs at least twice |
| ResultTable.DistinctAtMostOnce | FishySearch_v0.1/frontend/main.js:13-15 | in a duplicate-free list an element occurs at most once |
| ResultTable.SortDistinct | FishySearch_v0.1/frontend/main.js:15 | sorting keeps a list duplicate-free |
| ResultTable.ResultFilesAsWrittenIff | FishySearch_v0.1/frontend/main.js:13-15 | as written: the files are exactly the result names occurring in the listing, newest first, each occurrence kept |
| ResultTable.ResultFilesIff | FishySearch_v0.1/frontend/main.js:13-15 | corrected definition (see Findings): the files are exactly the result names occurring in the listing, once each, newest first |
| ResultTable.PreviousIsOlder | FishySearch_v0.1/frontend/main.js:24-26 | corrected definition (see Findings): with each file once, there is no snapshot exactly when there is no file, `previous` is absent exactly when there are fewer than two, and otherwise it is the newest file other than `master` |
| ResultTable.Doubled | FishySearch_v0.1/frontend/serve.py:21 | the listing names every file twice |
| ResultTable.PatternChars | FishySearch_v0.1/frontend/main.js:13 | every character of a result name is a digit or a suffix character |
| ResultTable.MatchesSameTail | FishySearch_v0.1/frontend/main.js:13 | matching depends only on the text from the current position on |
| ResultTable.MatchesShift | FishySearch_v0.1/frontend/main.js:13 | matching inside a later part of a text is matching that part alone |
| ResultTable.StraddleNoMatch | FishySearch_v0.1/frontend/main.js:13 | no result name straddles the seam between two listing lines |
| ResultTable.MatchesSplit | FishySearch_v0.1/frontend/main.js:13 | the matches of two listing parts are the matches of each, in order |
| ResultTable.EntryMatches | FishySearch_v0.1/frontend/main.js:13-14 | one listing line yields its file name twice |
| ResultTable.ListingMatches | FishySearch_v0.1/frontend/main.js:13-14 | a whole listing yields every file name twice, in order |
| ResultTable.ListingRepeatsNewest | FishySearch_v0.1/frontend/main.js:13-15 | as written, the two newest entries are the same file, so `previous` is a second copy of `master` |
| ResultTable.DoubledTopRepeats | FishySearch_v0.1/frontend/main.js:13-15 | sorting a doubled listing puts the newest name first and second |
| ResultTable.RepeatedTop | FishySearch_v0.1/frontend/main.js:15 | if the largest element occurs twice, a descending list starts with it twice |
| ResultTable.ListingOnceNewest | FishySearch_v0.1/frontend/main.js:13-15 | with each name once, two distinct files give a `previous` different from `master` |
| ResultTable.SortKeepsMembers | FishySearch_v0.1/frontend/main.js:15 | sorting keeps exactly the elements |
| ResultTable.PreviousUrls | FishySearch_v0.1/frontend/main.js:70-74 | a URL is remembered if and only if some previous item has it as a truthy `details.url` |
| ResultTable.MarkNewEntries | FishySearch_v0.1/frontend/main.js:67-83 | with no previous snapshot the master list is returned unchanged; otherwise the list keeps its length |
| ResultTable.MarkedFields | FishySearch_v0.1/frontend/main.js:76-81 | marking changes only `details.status`; every other key and every other details key is kept, and so is the url |
| ResultTable.MarkedStatus | FishySearch_v0.1/frontend/main.js:76-82 | each marked item keeps its other fields, and its status is `existing` if and only if its url was in the previous snapshot, `NEW` otherwise |
| ResultTable.MarkIdempotent | FishySearch_v0.1/frontend/main.js:67-83 | marking twice is marking once |
| ResultTable.NoUrlIsNew | FishySearch_v0.1/frontend/main.js:80 | an item without a url is always `NEW` |
| ResultTable.MarkedAgainstItself | FishySearch_v0.1/frontend/main.js:67-83 | marking a snapshot against itself makes every item with a url `existing` |
| ResultTable.ItemKeysIff | FishySearch_v0.1/frontend/main.js:38-46 | an item contributes its top-level keys other than `details` and `url`, and its details keys other than `url` |
| ResultTable.IndexOf | FishySearch_v0.1/frontend/main.js:57 | `indexOf` gives -1 exactly for an absent element, and otherwise its first position |
| ResultTable.AddEach | FishySearch_v0.1/frontend/main.js:40 | adding keys one by one is adding them all to the set |
| ResultTable.CollectColumns | FishySearch_v0.1/frontend/main.js:36-47 | the loop over items gathers exactly the collected columns |
| ResultTable.GatherStep | FishySearch_v0.1/frontend/main.js:37-47 | one more item adds its keys to the set |
| ResultTable.GetColumnStructure | FishySearch_v0.1/frontend/main.js:35-65 | the method, with its set, splice and deduplication, returns exactly the arranged columns |
| ResultTable.GatherIff | FishySearch_v0.1/frontend/main.js:36-47 | the set holds a key if and only if some item contributes it, each key once |
| ResultTable.CollectedIff | FishySearch_v0.1/frontend/main.js:36-47 | the collected columns are exactly the items' keys, each once |
| ResultTable.AddAllFresh | FishySearch_v0.1/frontend/main.js:64 | adding new distinct elements appends them in order |
| ResultTable.WithStatusPriority | FishySearch_v0.1/frontend/main.js:53-62 | `status` goes right after `name`: `shop, image, name, status` |
| ResultTable.ArrangeFacts | FishySearch_v0.1/frontend/main.js:50-64 | the arranged columns start with `shop, image, name, status`, have no duplicates, and hold exactly those, `isNew` and the collected columns |
| ResultTable.ColumnsStart | FishySearch_v0.1/frontend/main.js:53-64 | the columns start with `shop, image, name, status` and have no duplicates |
| ResultTable.ColumnsIff | FishySearch_v0.1/frontend/main.js:37-64 | a column appears if and only if it is a priority column, `status`, `isNew` or some item's key |
| ResultTable.NoUrlColumn | FishySearch_v0.1/frontend/main.js:39-44 | there is never a `url` column |
| ResultTable.ContentShown | FishySearch_v0.1/frontend/main.js:86-90 | text is cut if and only if the column is expandable and the text is longer than 120; it is then its first 120 characters followed by `...`, and otherwise the text itself |
| ResultTable.ExpandableIgnoresCase | FishySearch_v0.1/frontend/main.js:86 | column names with the same lower-case form display alike |
| ResultTable.ColumnTitle | FishySearch_v0.1/frontend/main.js:113 | the title keeps the column's length (with a per-character `upper`, see Left out) and all characters after the first; the first is upper-cased, except that `status` is titled `Status` |
| ResultTable.FilterColumnOfTitle | FishySearch_v0.1/frontend/main.js:113 | a title lower-cased gives back its column if and only if the column has no capital after its first character |
| ResultTable.CellValue | FishySearch_v0.1/frontend/main.js:110-112 | a cell shows the row's own value unless it is missing or null, and then the details value |
| ResultTable.CellAgreesWithFilter | FishySearch_v0.1/frontend/main.js:110-124 | when only one of the row and its details has a value and it is a string, or neither has one, the text shown is the text the filter tests |
| ResultTable.NullShownAsText | FishySearch_v0.1/frontend/main.js:110-124 | a `null` cell, as a subpage attribute without text leaves it, is shown as the text `null` while the filter tests `''` |
| ResultTable.CellDiffersFromFilter | FishySearch_v0.1/frontend/main.js:110-112 | when both have a value, the table shows the row's own value while the filter tests the details value |

## Left out

- Network and HTML: `fetch_page`, `urlopen`, BeautifulSoup and the selector engine are inputs (`Externals.fetch`, `Page`, `Container`). The record `Element` holds what a selector found.
- `urljoin`, `urlsplit` and `urlunsplit` are uninterpreted inputs. `str.upper` is a per-character map, so an upper-casing that changes a string's length (`ß` to `SS`) is not modelled.
- `load_config` and its `RuntimeError` are left out; the configuration is the constructor's argument, already parsed. A configuration that lacks a required key (a `KeyError` at run time) is not modelled. A missing `excluded_keywords` is modelled as `[]`.
- `save_results` is left out: creating the directory, JSON serialisation and write errors. `Run` returns the file it would write.
- `datetime.now()` becomes two date parameters, because `run` reads the clock twice (check, then save).
- `print` calls and the commented-out debug prints are left out.
- The DOM, jQuery and DataTables are left out: building rows and options, event handlers, the click handler, `draw`, `saveFullState`, `setTimeout`/`setInterval`, `fetch` and `Promise.all`.
- The HTML that `initializeTable` renders for the `image` and `status` columns, `JSON.stringify` of object cells, the chevron markup, and `toString` of non-string values are left out.
- `localeCompare` is plain lexicographic order on characters.
- ResultTable.ColumnTitle: `toUpperCase` is a per-character map, so a first character that upper-cases to two (`ß` to `SS`) is not modelled, and the length clause of its contract holds only under that simplification.
- ResultTable.ShownText: `JSON.stringify` of an object cell is an input; the rendered HTML around the text is left out.
- Restoring saved filters: the saved state is taken as `getCurrentFilters` wrote it. A hand-edited `savedfilter.json` with non-string values, a failed load (`{filters: [], sorting: []}`) and the `setTimeout` before `applyFilters` are left out.
- JavaScript string lengths count UTF-16 code units; the model counts characters, so surrogate pairs are not modelled.
- JavaScript shows integer-like object keys first in numeric order; the model keeps every key in insertion order.
- Spreading a string-valued `details`, and `Object.keys` of a string `details`, are left out: only object-valued `details` contribute keys or entries.
- Object-valued urls compare by identity in a JavaScript `Set`; the model compares values.
- No lemma is stated about the `else` branch of the column splice (main.js:60-62). `WithStatus` models it, but `name` is always a priority column, so the branch is never taken.
- `frontend/serve.py` is not part of this model except for the directory listing its GET falls back to: routing, the `/config/` files, and PUT and OPTIONS handling are left out.
- `run_all.py`, `run_quick.py`, `run_refresh.py` and `forcestop.py` (process orchestration) are not part of this model.
- The directory page is modelled by its file lines only, each naming the file as link target and as link text; its title and markup contain no result name.

## Findings

| source | as written | input that shows it | evidently intended | confidence | as-written member | corrected member |
|---|---|---|---|---|---|---|
| FishySearch_v0.1/frontend/main.js:13-15 | every match of the pattern is kept, and the directory page names each file twice (link target and link text), so the list repeats each file and `files[1]` is `files[0]` | any listing of the results directory, e.g. one holding `250101_result.json` and `250102_result.json`, gives `previous` = `master` = `250102_result.json`, so every entry with a url is marked `existing` | each file once, so `previous` is the second-newest file and entries new since then are marked `NEW` (corrected definition `ResultFiles`, with `ResultFilesIff` and `PreviousIsOlder`) | not executed | ResultTable.ListingRepeatsNewest | ResultTable.ListingOnceNewest |
