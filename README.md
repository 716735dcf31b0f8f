# USDA food crawler: verified model of the text extraction

This project models the text-extraction layer of `crawl_food_data.js`, a
crawler that walks the USDA National Nutrient Database search listing. For
every listed food it downloads the CSV export and stores a record holding the
food's ingredients and its nutrient table. The model covers five pieces of that
file:

- **title parsing** (`getUsdaResults`): each listing title is cut into an id,
  a description and a UPC, and the id gives the export URL;
- **nutrient-table isolation** (`getNutrientCsv`);
- **ingredient extraction** (`getIngredientsArray`);
- **noise-column pruning** (`removeUnnecessaryFieldsFromNutrientJson`), in
  place on an array of rows;
- the **detail callback's decision** whether a record is stored, and what the
  record holds.

Every regular expression these functions use is written out as an explicit
scan. Each scan mirrors the order in which an ECMAScript engine tries
positions: leftmost start first, greedy quantifiers longest first, lazy ones
shortest first. Each scan is then proved equal to a declarative description:

- a maximal run of digits;
- the first or last occurrence of a substring;
- the characters that no occurrence of a pattern covers;
- for `split`, the text with the white space after each comma dropped,
  cut at its commas.

Files:

- `wrappers.dfy`: `Option`, standing for JavaScript's `null`/`undefined`.
- `text.dfy`: the regex and string primitives: `trim`, digit runs, first and
  last occurrence, the greedy span `open[^]+close`, global delete of an
  alternation, bracket removal, and `split(/,\s?/)` with its inverse `Join`.
- `listing.dfy`: title parsing, and the `getUsdaResults` loop as a method.
- `extraction.dfy`: `getNutrientCsv` and `getIngredientsArray`, with worked
  examples.
- `rows.dfy`: nutrient rows as maps, and the in-place pruning method over an
  `array`.
- `detail.dfy`: the detail callback: the forwarding decision as a function,
  the callback as a method, and the database as a class that records the
  inserted records.

## Model

| member | source | states |
|---|---|---|
| Text.Trim | crawl_food_data.js:132 | `trim()` never lengthens its input, and a non-empty result neither starts nor ends with white space |
| Text.TrimIsSlice | crawl_food_data.js:163 | the trimmed text is a contiguous slice of the input, and only white space lies outside it |
| Text.TrimKeepsTrimmed | crawl_food_data.js:179 | trimming text that neither starts nor ends with white space changes nothing |
| Text.LeadingDigits | crawl_food_data.js:137 | `match(/^(\d)+/g).pop()` is present exactly when the text starts with a digit, and is then the maximal leading digit run |
| Text.TrailingDigits | crawl_food_data.js:140 | `match(/(?!UPC )\d+$/g).pop()` is present exactly when the text ends with a digit, and is then the maximal trailing digit run |
| Text.FirstOccurrence | crawl_food_data.js:14 | the first index at or after a start where a substring occurs, or none when it occurs nowhere after it |
| Text.LastOccurrence | crawl_food_data.js:16 | after the greedy `[^]+` backtracks from the end of the text, `close` is matched at its last occurrence at or after the bound, or nowhere when it does not occur there |
| Text.GreedySpanFrom | crawl_food_data.js:160 | the scan for `open[^]+close` succeeds exactly when some `open` is followed, at least one character later, by a `close`; the span it finds starts with `open` and ends with `close` |
| Text.GreedySpanEndsAtLastClose | crawl_food_data.js:16 | the greedy `[^]+` makes the span end at the last `close` of the whole text |
| Text.GreedySpanStartsAtFirstOpen | crawl_food_data.js:16 | the span begins at the first `open` that has a `close` after it: no earlier position at or after the scan start holds `open` with a span after it |
| Text.MatchedText | crawl_food_data.js:160-162 | `match(...)[0]` is present exactly when a span exists; it starts with `open`, ends with `close` and is no longer than the input |
| Text.GreedySpan | crawl_food_data.js:160 | the span of `match(/open[^]+close/g)[0]` exists exactly when some `open` has a `close` at least one character after it, and then starts with `open` and ends with `close` |
| Text.FirstAlternative | crawl_food_data.js:17 | the alternation tries its alternatives in order: the chosen one occurs at the position and no earlier one does; none is chosen only when no alternative occurs there |
| Text.DeleteAll | crawl_food_data.js:163 | a global replace by "" never lengthens the text; what it keeps is stated by the lemmas below |
| Text.DeleteFromPlain | crawl_food_data.js:163 | where no alternative occurs, the global replace copies the text through unchanged |
| Text.DeleteAllUncovered | crawl_food_data.js:163 | for pairwise non-overlapping alternatives, the global delete keeps exactly the characters that no occurrence of any alternative covers, in order |
| Text.DeleteAllKeepsEnds | crawl_food_data.js:163 | when no alternative starts with a character of the leading piece or ends with a character of the trailing piece, the delete keeps both pieces and cleans only what lies between them |
| Text.DeleteAllThenTrim | crawl_food_data.js:163 | the same, after the trim: the trim removes nothing, because both kept pieces have non-white-space outer characters |
| Text.StripBrackets | crawl_food_data.js:180 | `replace(/[()\[\]]/g, "")` leaves no bracket and never lengthens the text |
| Text.StripBracketsAppend | crawl_food_data.js:180 | bracket removal works piece by piece: removing from a concatenation is the concatenation of the removals |
| Text.StripBracketPair | crawl_food_data.js:180 | a bracket pair around bracket-free text is removed, and its contents are kept |
| Text.StripBracketsKeepsClean | crawl_food_data.js:180 | text without brackets is unchanged |
| Text.StripBracketsIdempotent | crawl_food_data.js:180 | removing brackets twice is the same as removing them once |
| Text.StripBracketsKeepsOthers | crawl_food_data.js:180 | each character that is not a bracket occurs in the result exactly as often as in the input |
| Text.Split | crawl_food_data.js:181 | `split(/,\s?/)` gives at least one piece, no piece holds a comma, and each piece's characters come from the input; where it cuts is stated by the next two lemmas |
| Text.SplitDropsSpaceAfterComma | crawl_food_data.js:181 | for every text, the pieces joined with bare commas are the text with the one white-space character after each comma removed; as no piece holds a comma, this fixes every piece |
| Text.SplitCount | crawl_food_data.js:181 | for every text there is one piece more than the text has commas |
| Text.SplitWithoutComma | crawl_food_data.js:181 | text without a comma splits into one piece, the text itself |
| Text.SplitJoin | crawl_food_data.js:181 | comma-free pieces joined with ", " split back into the same pieces, in order |
| Text.JoinSplit | crawl_food_data.js:181 | when every comma is followed by one space, joining the pieces with ", " restores the text |
| Listing.DetailUrlInjective | crawl_food_data.js:138 | different ids give different export URLs |
| Listing.DetailUrl | crawl_food_data.js:138 | the export URL is the fixed prefix, then the id, then the fixed query suffix |
| Listing.LazyToMarkerFindsFirst | crawl_food_data.js:14 | the lazy `(.*?)(?=, UPC)` stops at the first ", UPC", and fails when a line terminator comes before it |
| Listing.DescriptionFrom | crawl_food_data.js:14 | the description scan reports the leftmost start where the pattern matches, or none when it matches nowhere |
| Listing.DescriptionSpan | crawl_food_data.js:139 | `match(DESCRIPTION_PATTERN)[0]` is absent exactly when the pattern matches at no start; otherwise its start is a place where it matches, and its end is where the lazy scan from there stops |
| Listing.DescriptionSkipsDigits | crawl_food_data.js:14 | the lookahead `(?!(\d+))` rejects every start at a digit, so the scan gives the same result from any point of a digit run as from its end |
| Listing.NoMarkerNoDescription | crawl_food_data.js:14 | without a ", UPC" after the start the description pattern matches nowhere, so `match` gives null |
| Listing.DescriptionSpanIsLeftmostMatch | crawl_food_data.js:139 | the description span starts at a non-digit, reaches the first ", UPC" after it without a line break, and no earlier start matches |
| Listing.DescriptionOfTitle | crawl_food_data.js:139 | for a title without a line break, the description runs from the end of the leading digits to the first ", UPC"; with no ", UPC" there is no description |
| Listing.ParseTitleSpec | crawl_food_data.js:132-143 | a title yields an entry exactly when, after the trim, it starts and ends with a digit and the description pattern matches. The id is then the maximal leading digit run, the UPC the maximal trailing one, the URL the export URL of the id, and the description the trimmed matched text |
| Listing.ParseTitle | crawl_food_data.js:132-146 | an entry has a non-empty all-digit id and UPC, the URL of its id, and a description no longer than the title |
| Listing.ParseCleanTitle | crawl_food_data.js:136-143 | for a title without a line break: an entry exists exactly when the trimmed title starts and ends with a digit and contains ", UPC"; the description is then the trimmed text between the id and the first ", UPC" |
| Listing.ParsedTitles | crawl_food_data.js:131-148 | one parse outcome per title row, in row order |
| Listing.ParseTitles | crawl_food_data.js:131-148 | there are never more entries than title rows |
| Listing.ParseTitlesAppend | crawl_food_data.js:131-148 | entries keep row order: the entries of two consecutive runs of rows are the first run's, then the second's |
| Listing.ParseTitlesMembers | crawl_food_data.js:136-146 | an entry is produced exactly for the rows whose title parses; the other rows are skipped |
| Listing.ParseTitlesAllParse | crawl_food_data.js:144 | when every title parses there is one entry per row, each the parse of its row |
| Listing.ListingStubs | crawl_food_data.js:129-151 | the loop over the title links returns exactly the entries of the parsing titles, in row order |
| Extraction.NutrientCsv | crawl_food_data.js:158-168 | the nutrient table is absent exactly when the export has no "Nutrient,Unit" followed later by an "Other"; when present it is no longer than the export |
| Extraction.NutrientLabelsNonOverlapping | crawl_food_data.js:17 | no two occurrences of the seven section labels can partly overlap |
| Extraction.NutrientLabelsApart | crawl_food_data.js:17 | no section label starts with a character of "Nutrient,Unit" or ends with a character of "Other" |
| Extraction.NutrientBlockShape | crawl_food_data.js:162-163 | every label occurrence in the matched block is deleted and nothing else is; the leading "Nutrient,Unit" and the final "Other" survive, and the trim removes nothing |
| Extraction.NutrientBlockEnds | crawl_food_data.js:162-163 | the cleaned block starts with "Nutrient,Unit" and ends with "Other" |
| Extraction.NutrientCsvEnds | crawl_food_data.js:160-163 | a found table starts with "Nutrient,Unit" and ends with "Other", so it is never empty |
| Extraction.IngredientsText | crawl_food_data.js:177-180 | the ingredient text is absent exactly when there is no `Ingredients\n"` with a later `"`; when present it holds no bracket |
| Extraction.IngredientsArray | crawl_food_data.js:175-185 | the result is null exactly when the ingredient sentence is absent; otherwise it is a non-empty list whose elements hold no `,`, `(`, `)`, `[` or `]` |
| Extraction.IngredientsInOrder | crawl_food_data.js:181 | for every ingredient text, the ingredients are its comma-separated pieces in text order: joined with bare commas they give the text less the one white-space character after each comma, and there is one more ingredient than there are commas |
| Extraction.IngredientsRejoined | crawl_food_data.js:181 | when every comma of the ingredient text is followed by one space, joining the ingredients with ", " gives the text back |
| Extraction.SingleIngredient | crawl_food_data.js:181 | an ingredient text without a comma gives a one-element list |
| Extraction.IngredientArtifactsNonOverlapping | crawl_food_data.js:19 | occurrences of `Ingredients\n"` and `."` cannot partly overlap |
| Extraction.IngredientsBlockShape | crawl_food_data.js:179 | deleting the artifacts removes the leading header and then exactly the characters covered by an artifact |
| Extraction.IngredientsTextOfBlock | crawl_food_data.js:179-180 | the ingredient text is the block past its header, with the artifacts removed, trimmed, and with brackets removed |
| Extraction.DeleteWrapped | crawl_food_data.js:179 | a sentence `Ingredients\n"` + w + `."` loses its header and its closing `."`, for every `w` that itself holds neither `Ingredients\n"` nor `."` |
| Extraction.DeleteQuoted | crawl_food_data.js:179 | a sentence `Ingredients\n"` + w + `"` keeps `w` and its closing quote, for every `w` such that `w` followed by the quote holds neither `Ingredients\n"` nor `."` (so `w` does not end with a full stop) |
| Extraction.IngredientsExample | crawl_food_data.js:179-181 | `Ingredients\n"WATER, SUGAR (CANE)."` gives ["WATER", "SUGAR CANE"] |
| Extraction.TrailingQuoteExample | crawl_food_data.js:179-181 | `Ingredients\n"SALT"` gives [`SALT"`]: the closing quote stays in the last ingredient |
| NutrientRows.Pruned | crawl_food_data.js:196-201 | a pruned row lacks "Data points" and "Std", and keeps every other key with its value |
| NutrientRows.PrunedRows | crawl_food_data.js:195-202 | the pruned rows are as many as the rows, each the pruned row at its position |
| NutrientRows.PrunedKeepsClean | crawl_food_data.js:196-201 | a row without the noise columns is unchanged |
| NutrientRows.PrunedIdempotent | crawl_food_data.js:196-201 | pruning a row twice is the same as pruning it once |
| NutrientRows.PrunedRowsIdempotent | crawl_food_data.js:192-205 | pruning the rows twice is the same as pruning them once |
| NutrientRows.RemoveUnnecessaryFields | crawl_food_data.js:192-205 | the method returns the very array it was given; the array's rows are now the pruned rows, with the same length and order |
| DetailFetch.Forwarded | crawl_food_data.js:89-111 | a stored record carries the listing stub and the export's ingredients, and every nutrient row in it lacks the noise columns |
| DetailFetch.ForwardedExactly | crawl_food_data.js:89-100 | a record is stored exactly when the export was fetched, holds a nutrient table and the table parses; the record is the stub plus the ingredients (possibly null) plus the pruned rows |
| DetailFetch.NoTableNoRecord | crawl_food_data.js:90-91 | an export without a nutrient table stores nothing |
| DetailFetch.EmptyNutrientsForwarded | crawl_food_data.js:96-100 | a table that parses to no rows is still stored, with an empty nutrient list |
| DetailFetch.FoodStore.Insert | crawl_food_data.js:103 | the inserted record is added after the earlier ones |
| DetailFetch.OnDetail | crawl_food_data.js:81-121 | the callback adds to the store exactly the record that the forwarding decision gives, and nothing when the decision gives none |

## Left out

- The two crawler instances are not modelled: connection limits, the 1020 ms
  rate limit, queueing, pagination through the "next" link, and the `drain`
  promise. They are concurrency, timing and network plumbing. Callbacks are
  modelled one response at a time.
- `csvtojson().fromString` is a foreign library. It is the `parse` parameter
  of `DetailFetch.Forwarded` and `DetailFetch.OnDetail`, a function that gives
  either rows or a failure. A failure stands for the rejected promise that the
  callback's `try` catches.
- Cheerio's selection of `td:nth-child(2) a` and its `text()` are not
  modelled. The listing page is the sequence of its title texts, in page
  order.
- `db.insert` is the `DetailFetch.FoodStore.Insert` method, which always
  succeeds. The database's own failure, which the source catches and logs,
  is not modelled.
- All `console` output is left out.
- index.js is not part of this model. Its only parsing logic is a copy of the
  title parsing.
- Strings are sequences of Unicode characters. JavaScript strings are UTF-16
  code units, which differ only for characters outside the Basic
  Multilingual Plane; that difference is not modelled.
- A row is a map from column header to cell. The key order of a JavaScript
  object is not modelled. The shapes of values that the CSV parser may nest
  are not modelled either.
- The source changes the listing stub object in place, setting
  `ingredients` and `nutrients`. The model builds a new `FoodRecord` value
  holding the stub instead; the sharing of the stub object with the request
  options is not modelled.

## Behaviour worth noting

The model follows the code in each of these cases; some of them are easy to
misread from the function names alone.

- The description may be empty: in "123, UPC: 456" the lazy match is empty,
  and the title still yields an entry.
- The stored record keeps the `url` field of the listing stub.
- Ingredients are not trimmed one by one, and they may be empty. A trailing
  comma gives a final "". The closing quote of the sentence stays when no
  full stop comes before it (`Extraction.TrailingQuoteExample`).
- A deletion in the nutrient block can put two pieces side by side that
  together read as a label. Such new text is kept, as the source keeps it.
  "Every label occurrence is deleted" is stated for the occurrences in the
  matched block (`Extraction.NutrientBlockShape`).
- The test `if(nutrientJson)` is always true for an array, so an empty
  nutrient list is stored (`DetailFetch.EmptyNutrientsForwarded`).
