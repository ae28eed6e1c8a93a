# Tristar PRM: referral normalisation, data routes and dashboard helpers, in Dafny

Tristar PRM is a physician relationship manager. A clinic uploads a spreadsheet
of therapy referrals. The server works out which column holds which field,
normalises every row into a fourteen-field referral record and stores the
latest upload. A read route serves it back with optional filters and a limit,
and a guarded delete route clears it. A browser dashboard then offers
discipline, facility and insurance filters, counts key figures, ranks the top
referring doctors and exports a CSV file.

This project models that core:

- `columns.dfy` (`Columns`): the current column resolver, `src/lib/columns.ts`.
  - Headers are compared in a normal form: lower case, letters and digits only.
  - A header matching a field's spellings binds that field, and a later
    matching header overwrites an earlier one.
  - `BuildColumnMap` is the nested loop, proved equal to the declarative
    `ColumnMapOf`.
- `legacy_columns.dfy` (`LegacyColumns`): the older resolver, `src/app/column_mapping.js`.
  - Each field takes the first trimmed header that equals one of its
    candidates, ignoring case.
- `normalize.dfy` (`Normalize`): the normaliser in `src/app/Normalizer.ts`.
  - It maps rows: dates go through `toISO`, text is trimmed, counts are coerced.
  - It keeps only rows with a creation date and a referring doctor.
  - That file writes `src/lib/normalize.ts` and imports `./columns`, so the
    model takes the resolver as a parameter: `Current` or `Legacy`.
- `latest_route.dfy` (`LatestRoute`): `GET` and `DELETE` of `src/app/api/data/latest/route.ts`.
- `upload_route.dfy` (`UploadRoute`): `POST` of `src/app/api/ingest/upload/route.ts`.
- `dashboard.dfy`, `top_docs.dfy` and `csv.dfy` (`Dashboard`, `TopDocs`, `Csv`):
  the helpers of `src/app/page.tsx`.
  - Loading the rows, the option lists, the row filter and the figure cards.
  - The top-ten doctor tally (`CountDoctors` is its loop).
  - `toCSV` (the methods `HeaderColumns`, `SortedOthers`, `WriteLines` and `ToCsv`).

Supporting modules:

- `text.dfy` has the JavaScript string operations the code uses on ASCII text:
  `toLowerCase`, `toUpperCase`, `trim`, `includes`, `replace` of the first
  occurrence, `lastIndexOf`, `parseInt` and `String(n)`.
- `seqs.dfy` has filtering, counting, `slice` and first-appearance
  de-duplication (`Array.from(new Set(...))`).
- `sorting.dfy` has the default string sort.
- `dates.dfy` has the `yyyy-mm-dd` date format.
- `json.dfy` has `JSON.stringify` of scalars, following section 24.5.2.3
  (QuoteJSONString) of ECMA-262, and reading a string literal back.
- `records.dfy` has the record and stored-data shapes.

Inputs the code takes from its host are parameters:

- the spreadsheet's decoded rows, or `None` when the library throws;
- date parsing, which gives the calendar fields of a valid date or nothing;
- `Number` of a text cell;
- the clock;
- the form's file;
- the environment's secret;
- the authorization header;
- the store, an `Option<StoredData>` that the routes take and return.

Where the documentation of the system and its code differ, the model follows
the code:

- `src/lib/columns.ts` keeps the last matching header, not the first (`Columns.LaterHeaderWins`).
- Visit counts are not clamped: a negative number in the sheet stays negative.
- An upload whose rows are all rejected is answered with 400 "No valid data
  found in the uploaded file", not with an empty success.
- A row whose discipline upper-cases to "ALL" adds a second "ALL" option
  (`Dashboard.AllDisciplineRepeated`).

## Model

| member | source | states |
|---|---|---|
| Columns.NormalizeHeader | src/lib/columns.ts:15-17 | the normal form holds only lower-case letters and digits and is no longer than the header |
| Columns.NormalizeIdempotent | src/lib/columns.ts:15-17 | normalising twice is normalising once |
| Columns.NormalizeIgnoresCase | src/lib/columns.ts:15-17 | upper- or lower-casing a header does not change its normal form |
| Columns.NormalizeIgnoresSeparator | src/lib/columns.ts:15-17 | removing a character that is not a letter or digit does not change the normal form |
| Columns.NormalizeConcat | src/lib/columns.ts:15-17 | the normal form of a concatenation is the concatenation of the normal forms |
| Columns.LastMatch | src/lib/columns.ts:38-49 | the index of the last header matching a list of spellings, with no match after it, or -1 |
| Columns.ColumnMapOf | src/lib/columns.ts:11-52 | a field is bound iff some header matches one of its spellings, and then to the last such header |
| Columns.BuildColumnMap | src/lib/columns.ts:38-49 | the header-by-field-by-spelling loop, with its break, builds exactly `ColumnMapOf` |
| Columns.AnySpellingMatches | src/lib/columns.ts:42-47 | the inner loop finds a match iff some spelling has the header's normal form |
| Columns.SameNormalFormSameBindings | src/lib/columns.ts:38-49 | headers with equal normal forms bind the same fields, at the same positions |
| Columns.LastHeaderBinds | src/lib/columns.ts:43-44 | a matching last header always ends up bound to its field |
| Columns.LaterHeaderWins | src/lib/columns.ts:43-44 | with headers "Facility" then "Location", facility is bound to "Location" |
| Columns.CaseFacilityBindsFacility | src/lib/columns.ts:24 | a header whose normal form is "casefacility", alone in a sheet, binds facility to itself |
| Columns.ColumnVariationsWellFormed | src/lib/columns.ts:20-35 | the synonym table has distinct keys and no spelling with an empty normal form |
| Columns.BoundHeadersHaveNormalForm | src/lib/columns.ts:38-49 | a header that is bound never has an empty normal form |
| Columns.AvailableColumns | src/lib/columns.ts:57-60 | the available columns are exactly the fields some header matches |
| Columns.ValidateRequiredColumns | src/lib/columns.ts:65-74 | `missing` lists, in order, the required fields that are unbound or bound to an empty header; `isValid` iff it is empty |
| Columns.MissingMeansUnbound | src/lib/columns.ts:65-74 | with the real table, a required field is missing iff it is unbound |
| LegacyColumns.CandidatesNonEmpty | src/app/column_mapping.js:3-18 | no candidate spelling of any field in `COLUMN_CANDIDATES` is empty |
| LegacyColumns.TrimAll | src/app/column_mapping.js:20 | each header is trimmed, position by position |
| LegacyColumns.FindIndex | src/app/column_mapping.js:23 | the first header that equals a candidate ignoring case, with no match before it, or -1 |
| LegacyColumns.LegacyColumnMapOf | src/app/column_mapping.js:19-27 | a field is bound iff some trimmed header equals one of its candidates ignoring case, and then to the first such header as given |
| LegacyColumns.BuildColumnMap | src/app/column_mapping.js:19-27 | the per-field loop with `findIndex` builds exactly `LegacyColumnMapOf` |
| LegacyColumns.BindFirstMatches | src/app/column_mapping.js:22-25 | every field the loop visits is bound to its first match, and nothing else is bound |
| LegacyColumns.MatchIgnoresCase | src/app/column_mapping.js:23 | headers equal up to case match the same fields |
| LegacyColumns.MatchIgnoresPadding | src/app/column_mapping.js:20 | surrounding whitespace does not change which fields a header matches |
| LegacyColumns.PaddedHeaderStoredAsGiven | src/app/column_mapping.js:24 | a padded header is bound untrimmed, as the sheet spells it |
| LegacyColumns.FieldsResolvedIndependently | src/app/column_mapping.js:22-25 | a field's binding does not depend on the other fields of the table |
| LegacyColumns.BlankHeaderMatchesNothing | src/app/column_mapping.js:20-23 | a blank or all-whitespace header matches no field |
| LegacyColumns.EarlierHeaderWins | src/app/column_mapping.js:23 | with headers "Facility" then "Location", facility is bound to "Facility" |
| LegacyColumns.SeparatorsMatter | src/app/column_mapping.js:4 | "Date_Created" is not a creation-date header, since the legacy resolver does not normalise separators |
| Normalize.Lookup | src/app/Normalizer.ts:38 | a cell is the value under the first column with that header, or `undefined` when the row has no such header |
| Normalize.ToISO | src/app/Normalizer.ts:5-13 | nothing for a falsy cell or one that is not a date; otherwise a non-empty `yyyy-mm-dd` text, its year without leading zeros, that reads back to the parsed date's fields |
| Normalize.StringField | src/app/Normalizer.ts:42-47 | `null` and `undefined` give null; otherwise the text is the cell's string with the surrounding whitespace cut, and null when that is empty |
| Normalize.StringFieldStable | src/app/Normalizer.ts:42-47 | normalising an already normalised text field changes nothing |
| Normalize.CountField | src/app/Normalizer.ts:48-49 | missing is 0, a number is itself, a boolean is 0 or 1, a text is its parsed number or 0 |
| Normalize.Pick | src/app/Normalizer.ts:38 | a field with no bound column, or bound to the empty header, reads as `undefined`; otherwise it reads its bound header's cell |
| Normalize.HeadersOf | src/app/Normalizer.ts:36 | the headers are the first row's keys in order, or none for an empty sheet |
| Normalize.MapRow | src/app/Normalizer.ts:40-54 | every text field of the record is null or a non-empty trimmed text; the record has a creation date iff its creation or initial-evaluation cell gives one |
| Normalize.MapRows | src/app/Normalizer.ts:40-54 | every row is mapped, in order |
| Normalize.NormalizeWorkbook | src/app/Normalizer.ts:32-56 | the result is the mapped rows, in order, that have a creation date and a referring doctor, and no others |
| Normalize.NothingAdmitted | src/app/Normalizer.ts:55 | the result is empty iff no mapped row is admitted |
| Normalize.DroppedRows | src/app/Normalizer.ts:55 | kept rows plus rejected rows account for every input row |
| Normalize.CreatedDateFallback | src/app/Normalizer.ts:41 | the creation date is the created column's date, or else the initial-evaluation date |
| Normalize.DateFieldsAreToISO | src/app/Normalizer.ts:50-53 | the other four dates are their columns' `toISO` |
| Normalize.UnmappedFieldsEmpty | src/app/Normalizer.ts:38 | a field with no column is null, or 0 for a count |
| LatestRoute.LimitOf | src/app/api/data/latest/route.ts:48-53 | the limit applies iff the parameter is present, parses and is positive |
| LatestRoute.Served | src/app/api/data/latest/route.ts:26-53 | the served rows are the first of the stored rows passing every filter, in order: all of them, or as many as the limit when it applies |
| LatestRoute.GetResult | src/app/api/data/latest/route.ts:11-60 | 404 iff nothing is stored; otherwise the stored metadata, the served rows, `totalRows` their number, and `filteredRows` that number exactly when it differs from the stored count |
| LatestRoute.FilterStep | src/app/api/data/latest/route.ts:29-45 | one filter pass keeps the rows whose field contains the parameter, ignoring case |
| LatestRoute.Get | src/app/api/data/latest/route.ts:8-60 | 404 iff nothing is stored; otherwise the metadata, the served rows, their count and the filtered count when it differs |
| LatestRoute.FiltersCompose | src/app/api/data/latest/route.ts:29-45 | the three successive filters are one filter by their conjunction |
| LatestRoute.ServedIsSubsequence | src/app/api/data/latest/route.ts:26-53 | the served rows keep their stored order |
| LatestRoute.NoParametersServeAll | src/app/api/data/latest/route.ts:29-53 | with no parameter every stored row is served |
| LatestRoute.DecimalLimit | src/app/api/data/latest/route.ts:49-51 | a limit written as a positive decimal, whatever follows it, keeps that many filtered rows |
| LatestRoute.IgnoredLimit | src/app/api/data/latest/route.ts:48-53 | a limit that does not parse or is not positive is ignored |
| LatestRoute.Authorized | src/app/api/data/latest/route.ts:78-89 | with no secret, any request passes; with one, the header minus its first "Bearer " must equal it |
| LatestRoute.Delete | src/app/api/data/latest/route.ts:75-95 | the store is cleared iff the request is authorized, and otherwise left as it was |
| LatestRoute.BearerTokenAccepted | src/app/api/data/latest/route.ts:81-83 | "Bearer " followed by the secret is accepted |
| LatestRoute.BareSecretAccepted | src/app/api/data/latest/route.ts:81-83 | the bare secret is accepted too |
| LatestRoute.MissingHeaderRefused | src/app/api/data/latest/route.ts:80-88 | with a secret set, a request with no header is refused and the store is kept |
| UploadRoute.Extension | src/app/api/ingest/upload/route.ts:31 | the extension starts at the last dot, and a dotless name gives its whole lower-cased self |
| UploadRoute.Upload | src/app/api/ingest/upload/route.ts:10-77 | every refusal keeps the store, each with its own message; the upload succeeds iff there is a valid file, it decodes and some row is admitted |
| UploadRoute.UploadStoresRows | src/app/api/ingest/upload/route.ts:66-77 | success stores exactly the normalised rows, the file's name and their count; it answers with that count and the first three rows |
| UploadRoute.NoAdmittedRowRefused | src/app/api/ingest/upload/route.ts:58-63 | a sheet whose rows are all rejected gets "No valid data found" and the store is kept |
| UploadRoute.ExtensionWithoutDot | src/app/api/ingest/upload/route.ts:31 | without a dot the extension is the whole name in lower case |
| UploadRoute.DotlessNameNeedsType | src/app/api/ingest/upload/route.ts:31-33 | a dotless file is accepted only on its MIME type |
| UploadRoute.ExtensionAfterLastDot | src/app/api/ingest/upload/route.ts:31 | the extension is "." and the lower-cased text after the last dot |
| UploadRoute.ListedExtensionAccepted | src/app/api/ingest/upload/route.ts:31-33 | a name whose text after the last dot lower-cases to ".xlsx", ".xls" or ".csv" is accepted whatever its MIME type |
| UploadRoute.UpperCaseExtensionAccepted | src/app/api/ingest/upload/route.ts:30-33 | any name ending in ".XLSX" is accepted whatever its MIME type |
| Dashboard.TextOf | src/app/page.tsx:107 | `(field \|\| "")`: a string field's text, or "" |
| Dashboard.RowObjectFields | src/app/page.tsx:5-21 | a served record read as a JSON object keeps its facility, discipline, insurance and doctor |
| Dashboard.ResponseBody | src/app/api/data/latest/route.ts:55-60 | a served answer parses to an object, never an array, whose `data` holds one row object per served record and whose `filteredRows` is present iff the route set it; a 404 yields no body |
| Dashboard.LoadedRowsAsWritten | src/app/page.tsx:79-80 | as written, the page keeps a body only when `Array.isArray` holds of it, and otherwise keeps no row |
| Dashboard.AsWrittenLoadsNothing | src/app/page.tsx:79-80 | as written, the page keeps no row of any answer the route gives, since every answer is an object |
| Dashboard.StoredRowsNeverShown | src/app/page.tsx:79-80 | a non-empty store is served in full to the page, yet the page keeps no row |
| Dashboard.LoadedRows | src/app/page.tsx:79-80 | corrected: the page keeps the `data` array of an object body, or an array body itself |
| Dashboard.LoadedRowsOfResponse | src/app/page.tsx:79-80 | corrected: the page keeps one row object per served record, in order, and none on a 404 |
| Dashboard.StoredRowsLoaded | src/app/page.tsx:79-80 | corrected: every stored record reaches the page with its fields |
| Dashboard.AsISO | src/app/page.tsx:23-28 | nothing for a falsy value or a non-date; otherwise a `yyyy-mm-dd` text, its year without leading zeros, that reads back to the date |
| Dashboard.Filtered | src/app/page.tsx:105-112 | the kept rows are, in order, the rows passing all three selections, each as often as it occurs; "ALL" everywhere keeps every row |
| Dashboard.LowerCaseDisciplineKeepsNothing | src/app/page.tsx:107 | a selected discipline with a lower-case letter keeps no row |
| Dashboard.FacilityComparedExactly | src/app/page.tsx:108 | facility is compared exactly: another spelling drops the row |
| Dashboard.DisciplineValues | src/app/page.tsx:91 | the non-empty upper-cased disciplines of the rows, and only those |
| Dashboard.DisciplineOptions | src/app/page.tsx:90-93 | "ALL" then each non-empty upper-cased discipline once, in order of first appearance |
| Dashboard.TextValues | src/app/page.tsx:96 | the non-empty texts of a field, and only those |
| Dashboard.SortedOptions | src/app/page.tsx:95-103 | "ALL" then each non-empty facility or insurance text once, in ascending order |
| Dashboard.DisciplineOptionKeepsRows | src/app/page.tsx:90-112 | choosing any offered discipline keeps at least one row |
| Dashboard.FacilityOptionKeepsRows | src/app/page.tsx:95-112 | choosing any offered facility keeps at least one row |
| Dashboard.AllDisciplineRepeated | src/app/page.tsx:91-92 | a row whose discipline upper-cases to "ALL" makes the options repeat "ALL" |
| Dashboard.DoctorNames | src/app/page.tsx:117 | the non-empty trimmed doctor names of the rows, and only those |
| Dashboard.KpisOf | src/app/page.tsx:114-121 | no card for no rows; otherwise the total, distinct doctors, PT, OT, scheduled and arrived counts, each bounded by the total |
| TopDocs.DoctorKeys | src/app/page.tsx:141 | each row's doctor, or "Unknown", trimmed, in order |
| TopDocs.TallyCounts | src/app/page.tsx:139-143 | the tally lists each doctor once, in order of first appearance, with its number of rows |
| TopDocs.CountDoctors | src/app/page.tsx:139-143 | the loop over the rows builds exactly that tally |
| TopDocs.SortByCount | src/app/page.tsx:144 | the entries are reordered by descending count |
| TopDocs.InsertByCount | src/app/page.tsx:144 | inserting into a list ordered by descending count keeps it ordered and adds exactly the entry |
| TopDocs.EntryForEachDoctor | src/app/page.tsx:139-144 | every doctor appears in the ranking with its count |
| TopDocs.LeftOutRankedLower | src/app/page.tsx:144 | a doctor missing from the top ten has no more rows than any listed doctor, and ten are listed |
| TopDocs.TopDoctorsRanked | src/app/page.tsx:138-145 | `topDocs` (`TopDoctors`) lists at most ten distinct doctors, by descending count, each with its true positive count; anyone left out ranks no higher |
| TopDocs.Top | src/app/page.tsx:138-145 | the method computes that ranking |
| Csv.Esc | src/app/page.tsx:46 | `JSON.stringify(v ?? "")`: no line break; a missing or null value is `""`; a string reads back as itself, a number as its value, a boolean as `true`/`false` |
| Csv.Cell | src/app/page.tsx:48 | a created-date cell holds its `asISO` text; any other cell holds its string, number or boolean value, or `""` when missing or null |
| Csv.Cells | src/app/page.tsx:48 | one cell per header, in header order |
| Csv.Line | src/app/page.tsx:48 | a data line never breaks |
| Csv.DataLines | src/app/page.tsx:48 | one data line per row, in order |
| Csv.CsvLines | src/app/page.tsx:47-49 | the text splits back into the header line and one line per row |
| Csv.SplitJoin | src/app/page.tsx:49 | splitting lines joined by "\n" gives them back, when none has a break |
| Csv.KeysIn | src/app/page.tsx:43 | the keys that occur in some row |
| Csv.OtherColumnsUnique | src/app/page.tsx:44 | the extra columns are determined by the rows |
| Csv.HeadersDistinct | src/app/page.tsx:41-45 | no column appears twice in the header |
| Csv.SortedOthers | src/app/page.tsx:44 | the extra columns are each non-preferred key once, in ascending order |
| Csv.HeaderColumns | src/app/page.tsx:41-45 | the header is the preferred columns followed by the sorted extra columns |
| Csv.WriteLines | src/app/page.tsx:47-49 | the line loop writes exactly the CSV text |
| Csv.ToCsv | src/app/page.tsx:40-50 | `toCSV` writes the CSV text under the preferred and sorted extra columns |
| Json.EscapeChar | src/app/page.tsx:46 | an escaped character never holds a line break, and only the escaped forms start with a backslash |
| Json.QuoteRoundTrip | src/app/page.tsx:46 | reading a stringified text back gives the text |
| Json.QuoteInjective | src/app/page.tsx:46 | different texts are stringified differently |
| Json.Stringify | src/app/page.tsx:46 | a stringified scalar has no line break; a string reads back as itself, an integer `parseInt`s back to itself, a boolean is `true`/`false` |
| Dates.FormatRoundTrip | src/app/Normalizer.ts:9-12 | the `yyyy-mm-dd` text reads back to the date's fields |
| Dates.FormatInjective | src/app/page.tsx:27 | different dates print differently |
| Dates.FormatCanonical | src/app/Normalizer.ts:9-12 | the printed date has a year without leading zeros and a two-digit month and day |
| Dates.CanonicalDecodeUnique | src/app/page.tsx:27 | a text in that printed form is the printing of the date it reads back to |
| Text.TrimIgnoresPadding | src/app/column_mapping.js:20 | `trim` ignores surrounding whitespace |
| Text.IndexOf | src/app/api/data/latest/route.ts:81 | the position `replace` acts on: -1 iff the pattern does not occur, else its first occurrence |
| Text.LastIndexOf | src/app/api/ingest/upload/route.ts:31 | the last position of the character, or -1 when absent |
| Text.IntToDecimalRoundTrip | src/app/page.tsx:46 | `parseInt` reads the decimal text of any integer, negative ones too, back to that integer |
| Text.ParseIntOfNumeral | src/app/api/data/latest/route.ts:49 | `parseInt` reads the leading decimal digits and ignores what follows |
| Text.ReplaceLeading | src/app/api/data/latest/route.ts:81 | replacing a leading "Bearer " removes exactly it |
| Sorting.Sort | src/app/page.tsx:97 | `sort()` gives an ascending permutation |
| Sorting.SortedUnique | src/app/page.tsx:97 | two ascending orderings of the same elements are equal |

## Left out

- Spreadsheet decoding (SheetJS `read` and `sheet_to_json`) is a parameter. The rows it yields are given, or `None` when it throws.
- `new Date(...)` is a parameter. It gives the calendar fields of a valid date, or nothing. Local time zones are not modelled, so `toISO` applied twice is not claimed to be the identity.
- `Number(...)` of a text cell is a parameter. Fractions, NaN and infinities of the sheet's numbers are not modelled: counts are integers.
- Normalize.CellString: `String(n)` of a number is written in plain decimal digits; the exponent form JavaScript uses from 1e21 on is not modelled.
- Normalize.NormalizeWorkbook: a header that is `null` is modelled as a string. Headers are the first row's keys in their order.
- Columns.AvailableColumns: the result is a set. The order of `Object.keys` is not modelled.
- Storage (`DataStorage`) is the `Option<StoredData>` value each route takes and returns. File and database I/O are not modelled.
- JSON transport of the route bodies is not modelled. The dashboard reads each served record as an object of its fourteen fields.
- The `catch` paths answering 500, and the upload route's `GET` (a constant description plus store statistics), are not modelled.
- The upload's `processedAt`, the stored `uploadDate` and the `INGEST_SECRET` environment variable are parameters.
- Case mapping, trimming and `toUpperCase` cover ASCII only. Unicode case mapping and Unicode whitespace are not modelled.
- Text.Less: strings are compared by code point. `sort()` compares UTF-16 code units, so the two orders can differ on characters outside the Basic Multilingual Plane.
- Dashboard.KpisOf: the percentages, the rows-per-day figure and the date span are floating point and are not modelled.
- TopDocs.TopDoctorsRanked: the order among doctors with equal counts is not stated, though the sort modelled is stable.
- Dashboard text fields holding a non-string JSON value are read as missing.
- The browser side is not modelled: `localStorage`, `downloadBlob`, React state and the download file name.
- Json.Stringify: lone surrogates, which ECMA-262 escapes as `\uXXXX`, are not modelled. Characters are assumed to be scalar values.
- Csv.SplitLines: reading the CSV text back as lines is a plain split on "\n". CSV quoting rules are not modelled.

## Findings

| source | as written | input that shows it | evidently intended | confidence | as-written member | corrected member |
|---|---|---|---|---|---|---|
| src/app/page.tsx:79-80 | the dashboard keeps the response only when it is an array, but `GET /api/data/latest` answers with an object holding `metadata` and `data` | any non-empty store: the page shows no rows, no options and no figures | load the response's `data` rows | high, not executed | Dashboard.AsWrittenLoadsNothing, Dashboard.StoredRowsNeverShown | Dashboard.LoadedRowsOfResponse, Dashboard.StoredRowsLoaded |
