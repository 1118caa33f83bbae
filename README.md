# natural-language-postgres, modelled in Dafny

The application turns a natural-language question into a SQL query, runs the
query against a Postgres table of scored résumés (`resume_scores_rows`) and
shows the rows in a table that can be sorted, filtered, inspected row by row
and exported as CSV. This project models the deterministic code around the
language model and the database, and proves what it promises:

- **The read-only gate** (`QueryGate`, app/actions.ts). A query gets through
  when its trimmed, lower-cased text starts with `select` and contains none of
  nine denylisted keywords. A database error that names the missing table
  becomes "Table does not exist"; every other error is passed on unchanged.
  Proved:
  - the verdict in both directions;
  - letter case and surrounding whitespace never change the verdict;
  - a denylisted keyword anywhere, in any case, rejects the query. This covers
    the timestamp columns `created_at`/`updated_at` and their `metadata_`
    forms, which contain `create`/`update`, and string literals such as
    `'Update'`;
  - the database is reached only with the original, untrimmed query text,
    and only when the gate accepts it.
- **The CSV export** (`CsvExport`, lib/csv-utils.ts):
  - the JSONB formatters;
  - the per-column choice of formatter;
  - the text `downloadCSV` builds.

  The text is proved against a reader for the same dialect: section 2 of
  RFC 4180, with a line feed between records. Reading the text back gives
  the first row's keys, then one record per row, one field per header, each
  field being the formatted cell. The JSONB formatter is proved to show every
  key and primitive of the value.
- **The result table** (`Results`, components/results.tsx). The sort and
  filter state is a class whose methods are the React state updates. The
  filtering loop of `processedData` is a method proved against a declarative
  specification. Proved:
  - the shown rows are an order-preserving subsequence of the results;
  - a row is shown exactly when it passes every non-blank filter;
  - blank filters are ignored;
  - a falsy cell never passes an active filter;
  - the comparator puts missing values first when ascending and last when
    descending.

  Also modelled, each with its stated meaning: the title and width helpers,
  and the truncating JSONB preview.
- **The candidate dialog** (`CandidateDetail`,
  components/candidate-detail-modal.tsx):
  - JSON field parsing;
  - the location line, built by pushing parts as in the source;
  - the answer, experience and education lists with their default texts;
  - the badge colours of the two scores.

`Text` and `JsonValue` hold the JavaScript semantics these rely on:
- ASCII `trim`, `toLowerCase`, `startsWith`, `includes`, `split` and `join`;
- truthiness and `String()`;
- `Object.keys` order;
- property access.

Calls into code that is not modelled are parameters:
- `JSON.parse` is a function to `Option<Json>`, with `None` where it throws;
- the database is a function from the query text to rows or an error message;
- the number, percentage and date formatting and the comparison of two
  present values are functions of the value or of its text.

## Model

| member | source | states |
|---|---|---|
| QueryGate.RunQuery | app/actions.ts:114-148 | A rejected query yields an error whose message is "Only SELECT queries are allowed", without a database call. An accepted one sends the original text and returns the rows, or the classified error. |
| QueryGate.ClassifyDbError | app/actions.ts:135-145 | The error is "Table does not exist" exactly when the message contains `relation "resume_scores_rows" does not exist`. Otherwise it is the same message re-thrown. The thrown message is stated for both cases. |
| QueryGate.Accepts | app/actions.ts:117-128 | An accepted query, once trimmed, begins with `select` in any letter case, and its trimmed lower-cased text contains none of the nine denylisted keywords. |
| QueryGate.RunReachesDbOnlyWhenAccepted | app/actions.ts:128-134 | The database is called iff the gate accepts, and then with the untrimmed original query. |
| QueryGate.AcceptsMeaning | app/actions.ts:117-130 | Accepted iff the normalised text starts with `select` and no denylisted keyword occurs at any position. |
| QueryGate.DeniedKeywordRejects | app/actions.ts:119-127 | An occurrence of a denylisted keyword at any position of the normalised text rejects. |
| QueryGate.NoSelectPrefixRejects | app/actions.ts:118 | A normalised text not starting with `select` is rejected. |
| QueryGate.LowerTrim | app/actions.ts:117-128 | ASCII trim and lower-casing commute, so the checks see one canonical text. |
| QueryGate.CaseNeverMatters | app/actions.ts:117-128 | Queries that agree up to letter case get the same verdict. |
| QueryGate.SurroundingSpaceNeverMatters | app/actions.ts:117-128 | Leading and trailing whitespace never change the verdict. |
| QueryGate.KeywordAnywhereRejects | app/actions.ts:119-127 | A denylisted keyword in the query in any letter case rejects it, wherever it stands. |
| QueryGate.CreatedAtColumnRejected | app/actions.ts:125 | Any query mentioning `created_at`, and so `metadata_created_at`, is rejected. |
| QueryGate.UpdatedAtColumnRejected | app/actions.ts:122 | Any query mentioning `updated_at`, and so `metadata_updated_at`, is rejected. |
| QueryGate.KeywordInLiteralRejected | app/actions.ts:122 | A query comparing with the string literal `'Update'` is rejected whatever surrounds it. |
| CsvExport.FormatJsonbForCsv | lib/csv-utils.ts:3-78 | null formats as the empty string, and a string that is not JSON is returned as it is. A parsed string, or any other value, goes to the top-level formatter `FormatParsed`. |
| CsvExport.FormatNested | lib/csv-utils.ts:8-27 | null shows as `null`, and an empty array or object as `[]` or `{}`. A non-empty array shows inside `[` and `]` and contains every item's nested text. A non-empty object shows inside `{` and `}` and contains every `key: value` pair. Any other value shows as its `String()`. |
| CsvExport.ItemText | lib/csv-utils.ts:46-55 | A non-object item shows as its `String()`, and an empty object as `{}`. Every `key: value` pair of an object item appears in its text. |
| CsvExport.FormatParsed | lib/csv-utils.ts:39-78 | An array shows inside `[` and `]` and an object inside `{` and `}`, with `[]` and `{}` when empty. A primitive shows as its `String()`. |
| CsvExport.NestedShowsEverything | lib/csv-utils.ts:8-27 | The nested formatter's text contains every key and every primitive's `String()` of the value. |
| CsvExport.ParsedShowsEverything | lib/csv-utils.ts:38-75 | The top-level formatter contains every key and primitive. It covers items joined by ` \| `, pairs by `; `, and array items shown through their index keys. |
| CsvExport.JsonbCellShowsEverything | lib/csv-utils.ts:3-83 | A JSONB cell, once its JSON string is parsed, shows all the value holds. |
| CsvExport.FormatterFor | lib/csv-utils.ts:86-118 | A cell goes to the JSONB formatter iff its lower-cased column contains one of `entries`, `answers`, `location` or `skills_list`, and no earlier rule matches. |
| CsvExport.FormatCell | lib/csv-utils.ts:86-119 | A `fit_score` column goes to the number formatter. Otherwise a `rate` column goes to the percent formatter, and a truthy timestamp to the date formatter. The JSONB branch uses the JSONB formatter. The default branch gives `String(value)` for a truthy value and "" otherwise. |
| CsvExport.PlainFalsyIsEmpty | lib/csv-utils.ts:117-118 | The default branch renders a falsy value as the empty string. |
| CsvExport.NeedsQuotesMeaning | lib/csv-utils.ts:145 | A field is quoted iff it contains a comma, a line feed or a double quote. |
| CsvExport.DoubleQuotes | lib/csv-utils.ts:146 | A text without quotes is unchanged. Otherwise the text grows by one character per quote. |
| CsvExport.Escape | lib/csv-utils.ts:144-148 | A text without a comma, line feed or quote is written as it is. Any other text is wrapped in quotes, and its length grows by its quote count plus two. |
| CsvExport.Field | lib/csv-utils.ts:136-148 | A field is the escaped form of the cell text, and a missing or null value gives the empty field. |
| CsvExport.DataLine | lib/csv-utils.ts:135-150 | Every header's escaped field appears in the data line. |
| CsvExport.CsvContent | lib/csv-utils.ts:121-151 | There is no CSV text exactly when there are no rows. |
| CsvExport.ParseFieldEscaped | lib/csv-utils.ts:144-148 | Stripping the quotes and collapsing doubled quotes gives back the formatted value, for a field followed by a delimiter or the end. |
| CsvExport.ParseQuotedDoubled | lib/csv-utils.ts:146 | Doubling quotes is undone by reading the quoted field. |
| CsvExport.ParseUnquotedPlain | lib/csv-utils.ts:148 | A field left unquoted reads back unchanged. |
| CsvExport.ParseRecordEncoded | lib/csv-utils.ts:135-150 | A line of escaped fields joined by `,` reads back as those fields. |
| CsvExport.ParseRecordsEncoded | lib/csv-utils.ts:131-151 | Lines joined by `\n` read back as the records, in order. |
| CsvExport.HeaderLineEncoded | lib/csv-utils.ts:128-133 | The header line is the keys of the first row joined by `,`. |
| CsvExport.DataLineEncoded | lib/csv-utils.ts:135-150 | A data line is the encoding of the row's cells in header order. |
| CsvExport.CsvRoundTrip | lib/csv-utils.ts:121-151 | The CSV text reads back as the first row's keys, then each row's cells in order, one per header. A cell is empty when missing or null. |
| Results.NextSort | components/results.tsx:93-106 | Another column gives (column, asc); the same column goes asc to desc and desc to (none, none). The invariant "column unset iff direction unset" is kept. |
| Results.SortCycle | components/results.tsx:93-106 | Three clicks on a header give asc, then desc, then unsorted. |
| Results.ResultsTable.constructor | components/results.tsx:32-34 | The table starts unsorted with no filters, which satisfies the invariant. |
| Results.ResultsTable.HandleSort | components/results.tsx:93-106 | The new sort state is `NextSort` of the old one. The filters are unchanged and the invariant is kept. |
| Results.ResultsTable.HandleFilter | components/results.tsx:108-113 | Only the given column's filter is set or replaced. |
| Results.ResultsTable.ClearFilter | components/results.tsx:115-121 | Only the given column's filter is removed. |
| Results.ResultsTable.TypeFilterValue | components/results.tsx:346-350 | Typing sets the column's value and keeps its type, "contains" for a new filter. Other columns are unchanged. |
| Results.ResultsTable.ChooseFilterType | components/results.tsx:352-366 | A type button sets the column's type and keeps its value, "" for a new filter. Other columns are unchanged. |
| Results.ResultsTable.FilterRows | components/results.tsx:42-59 | The loop over the filters yields exactly the rows passing every filter, whatever order the filters are taken in. |
| Results.Active | components/results.tsx:47 | A filter is applied iff its value has a character that is not whitespace. |
| Results.FilterCell | components/results.tsx:49 | A missing or falsy cell (null, false, 0, NaN, "") reads as "". Otherwise the cell reads as its lower-cased `String()`. |
| Results.CellMatchesMeaning | components/results.tsx:50-56 | A `startsWith` filter matches iff the lower-cased value occurs at position 0 of the cell text. A `contains` filter matches iff it occurs at some position. |
| Results.Filtered | components/results.tsx:42-59 | The kept rows are never more than the results, and each is a result row that passes every filter. |
| Results.FilterStep | components/results.tsx:47-57 | Applying one more active filter to the rows kept so far equals keeping the rows that pass both. |
| Results.InactiveStep | components/results.tsx:47 | A blank filter leaves the rows as they are. |
| Results.KeepPassingNothingDone | components/results.tsx:43 | Before any filter is applied, every row is kept. |
| Results.FilteredIsSubsequence | components/results.tsx:42-59 | The shown rows are an order-preserving subsequence of the results and never more numerous. |
| Results.FilteredMembers | components/results.tsx:46-57 | A row is shown iff it is in the results and, for each non-blank filter, its lower-cased cell starts with or contains the lower-cased filter value. |
| Results.BlankFilterIgnored | components/results.tsx:47 | A filter whose value trims to blank has the same effect as no filter. |
| Results.FalsyCellExcluded | components/results.tsx:49-56 | With an active filter, a row whose cell is missing, null, false, 0, NaN or "" is never shown. |
| Results.ClearingFilterOnlyAdds | components/results.tsx:115-121 | Clearing a filter never hides a row that was shown. |
| Results.CompareCells | components/results.tsx:63-70 | Two missing values compare equal. A missing value sorts first when ascending and last when descending. |
| Results.NullsGrouped | components/results.tsx:62-88 | In any order the comparator accepts, missing values come before all others when ascending and after them when descending. |
| Results.HasCandidateData | components/results.tsx:39 | True iff some column is named `candidate_name`. |
| Results.FormatColumnTitle | components/results.tsx:123-130 | Each `_` becomes a space and only the very first character is upper-cased. The length is kept. |
| Results.GetColumnWidth | components/results.tsx:132-165 | `w-20` iff the lower-cased name is `id`, and `w-56` iff a fit-score or account column. `w-80` iff a long-text column that no earlier rule (id, fit-score or account, medium) takes. Always one of the four widths. |
| Results.Truncate | components/results.tsx:217 | A text over 30 characters becomes its first 30 plus `...`, so at most 33. Shorter texts are kept. |
| Results.FormatJsonbPreview | components/results.tsx:167-250 | null previews as "" and a non-JSON string as itself. A parsed string, or any other value, goes to the truncated preview `PreviewParsed`. |
| Results.PreviewItem | components/results.tsx:210-222 | A non-object item shows as its `String()`, and an empty object as `{}`. A non-empty object shows its first pair with the value cut to 30 characters (`PreviewPair`), so at most 35 characters after the key. |
| Results.PreviewParsed | components/results.tsx:203-250 | An array shows inside `[` and `]` and an object inside `{` and `}`, with `[]` and `{}` when empty. A primitive shows as its `String()`. |
| Results.ShortArrayPreview | components/results.tsx:204-227 | An array of one or two elements shows them all, in order. |
| Results.ShortObjectPreview | components/results.tsx:231-246 | An object of one to three keys shows all its pairs in key order, each value cut to 30 characters, with no trailer. |
| Results.LongArrayPreview | components/results.tsx:209-227 | A longer array shows its first two elements and `... +n more` with n the number of the others. |
| Results.LongObjectPreview | components/results.tsx:231-246 | An object of more than three keys shows its first three pairs, each value truncated, and `... +n more`. |
| Results.PreviewPairBounded | components/results.tsx:238-241 | A previewed pair is at most the key plus 35 characters. A value of at most 30 characters is shown whole. |
| Results.FormatCellValue | components/results.tsx:258-291 | The table uses the preview for JSONB columns, and `String(value \|\| "")` in the default branch. |
| Results.TableAgreesWithExportOutsideJsonb | components/results.tsx:258-291 | Outside the JSONB columns, a table cell reads the same as the exported cell. The two formatters share one dispatch there, so this restates that shared structure for the reader. |
| Text.ContainsMeaning | app/actions.ts:119-127 | `includes` holds iff the needle occurs at some position. |
| Text.JoinSplit | components/results.tsx:124-129 | Splitting on one character and joining with another replaces every occurrence. |
| Text.NatToStringRoundTrip | components/results.tsx:226 | The decimal count written in `+n more` reads back as n. |
| CandidateDetail.ParseJson | components/candidate-detail-modal.tsx:31-38 | A falsy input or unparseable string gives null. Another string gives its parsed value, and a non-string passes through. |
| CandidateDetail.DisplayRecord | components/candidate-detail-modal.tsx:101 | The dialog shows the loaded record when there is one, else the clicked row. |
| CandidateDetail.FormatLocation | components/candidate-detail-modal.tsx:40-48 | City and country, whichever are truthy, in that order and joined by `, `. The result is null when neither is present or the field is absent or falsy. |
| CandidateDetail.ArrayField | components/candidate-detail-modal.tsx:52 | A list formatter proceeds iff the parsed field is an array. |
| CandidateDetail.FormatAnswers | components/candidate-detail-modal.tsx:50-59 | Non-array or absent input gives []. A null element throws a TypeError. |
| CandidateDetail.QuestionOf | components/candidate-detail-modal.tsx:55 | The question is its truthy body, else "Question not available". |
| CandidateDetail.AnswerOf | components/candidate-detail-modal.tsx:56 | The answer is its truthy body, else its truthy number, else "Yes" or "No" by the truthiness of `checked`. |
| CandidateDetail.AnswersMeaning | components/candidate-detail-modal.tsx:54-58 | Length and order are kept. Entry i is item i's question and answer with id i. The answer is the body, else the number, else "Yes"/"No" by `checked`. |
| CandidateDetail.NoAnswerFallbackUnused | components/candidate-detail-modal.tsx:56 | "No answer provided" appears only when the candidate's own body or number is that text. |
| CandidateDetail.FormatExperience | components/candidate-detail-modal.tsx:61-73 | Non-array or absent input gives []. A null element throws a TypeError. |
| CandidateDetail.ExperienceOf | components/candidate-detail-modal.tsx:65-72 | A falsy title or company becomes its default text. The dates and `current` pass through unchanged. An id is kept exactly when it is truthy. |
| CandidateDetail.ExperienceMeaning | components/candidate-detail-modal.tsx:65-72 | Length and order are kept, and entry i is `ExperienceOf` item i. A falsy title or company becomes "Position not specified" or "Company not specified". |
| CandidateDetail.FormatEducation | components/candidate-detail-modal.tsx:75-87 | Non-array or absent input gives []. A null element throws a TypeError. |
| CandidateDetail.EducationOf | components/candidate-detail-modal.tsx:79-86 | A falsy degree or school becomes its default text. The field of study and the dates pass through unchanged. An id is kept exactly when it is truthy. |
| CandidateDetail.EducationMeaning | components/candidate-detail-modal.tsx:79-86 | Length and order are kept, and entry i is `EducationOf` item i. A falsy degree or school becomes "Degree not specified" or "Institution not specified". |
| CandidateDetail.GetFitScoreColor | components/candidate-detail-modal.tsx:89-99 | Red flags: green iff ≤3, yellow iff in (3, 6], red iff >6. Fit: green iff ≥8, yellow iff in [6, 8), red iff <6. |
| CandidateDetail.ColourMonotone | components/candidate-detail-modal.tsx:89-99 | A higher fit score never gets a worse colour, and a higher red-flag score never a better one. |
| CandidateDetail.BadgeScore | components/candidate-detail-modal.tsx:133 | `Number(x) \|\| 0`: a missing value, null, false and NaN all count as 0, and true counts as 1. A number or string counts as its numeric value. |
| CandidateDetail.FitBadge | components/candidate-detail-modal.tsx:133 | The fit badge is green iff the score is at least 8, yellow iff in [6, 8), and red iff below 6. |
| CandidateDetail.RedFlagBadge | components/candidate-detail-modal.tsx:136 | The red-flag badge is green iff the score is at most 3, yellow iff in (3, 6], and red iff above 6. |
| CandidateDetail.MissingScoreColours | components/candidate-detail-modal.tsx:133-136 | A missing or NULL score shows red on the fit badge and green on the red-flag badge. |

## Left out

- `generateQuery` and `explainQuery` (app/actions.ts:9-112, 150-208) call an external language model. Their prompt rules are text that no code enforces.
- `dbQuery` is external database I/O; it is the parameter `db` of `RunQuery`.
- Floating-point and locale behaviour are outside the model:
  - `parseFloat`, `toString` and `toFixed` in the score and rate formatters are the `number` and `percent` parameters;
  - `toLocaleDateString` is the `date` parameter;
  - the numeric and `localeCompare` comparison of two present values is the `ascending` parameter of `CompareCells`;
  - `Number()` of a number or string is a parameter of `BadgeScore`; null and booleans are converted in the model;
  - scores are reals.
- The `value instanceof Date` branches (lib/csv-utils.ts:102-104, components/results.tsx:274-276) are left out: JSON values carry no `Date`. The driver's timestamps reach the date formatter through the `created_at`/`updated_at` branch instead.
- `JSON.parse` is the `parse` parameter. JSON numbers are carried as the text `String()` gives them.
- Results.FilterRows: the in-place `Array.prototype.sort` of `processedData` (components/results.tsx:62-88) is not modelled. Only the comparator and the ordering it imposes on missing values are. The engine's sorting algorithm is not part of the application, and the comparison of present values is a parameter.
- `trim`, `toLowerCase`, `toUpperCase` and whitespace are ASCII only; Unicode case mapping and Unicode spaces are not modelled.
- `Object.keys` lists an object's keys in the order of the `JObj` field list. JavaScript's placement of integer-like keys first is not modelled, and a repeated key is looked up at its first occurrence.
- String lengths count characters, not UTF-16 code units, in the 30-character truncation.
- The Blob, link and DOM steps of `downloadCSV` (lib/csv-utils.ts:153-166) are browser I/O. components/csv-download-button.tsx is a guard-and-call wrapper.
- React rendering, `useMemo`, `showFilterFor`, `selectedCandidate` and the loading state are out. The `useEffect` fetch through `getCandidateByName` is out too; getCandidateByName is not part of this model. The loaded record is the `full` parameter.
- `Math.random()` ids of experience and education entries are represented as `None`.
- The `try`/`catch` fallbacks around the formatters (lib/csv-utils.ts:80-83, components/results.tsx:252-255) are left out. Nothing inside them can throw once parsing is a parameter.
- CsvExport.CsvRoundTrip: stated for header names free of commas, quotes and line feeds and for at least one column. Header names are written without escaping, so other names do not round-trip.
- The reader for the CSV dialect treats a lone carriage return as field content, as the writer does; the writer quotes only for `,`, `\n` and `"`.
