# ISLAH-21 alumni directory: a Dafny model of its data pipeline and API handlers

The ISLAH-21 alumni application reads a Google Sheet of alumni and turns each row into a
validated record. It serves those records, filtered and paginated, from `GET /api/v1/alumni`.
It also derives the filter options of the directory and lets an operator revalidate a cache
tag through `GET /api/v1/revalidate`. This project models that core as pure Dafny functions
and proves what it promises.

The modules follow the source files:

- `Text` (`text.dfy`) holds the JavaScript string operations the pipeline relies on: `toLowerCase`, `includes`, `trim`, `split` and `join`.
- `Seqs` (`seqs.dfy`) holds order-preserving `Array.prototype.filter` and the subsequence relation.
- `CamelCase` (`camelcase.dfy`) models `toCamelCase` from `lib/string.ts`, the header normaliser.
- `Links` (`links.dfy`) models the link columns of `services/alumni/alumni-schema.ts`:
  - `LINKS` and `baseUrls`;
  - `parseLink` and `normalizeAndValidateUrl`;
  - the per-column link decision of `parseSheetData`.
- `Sheet` (`sheet.dfy`) models `parseSheetData`. Phase one folds each column's route into a loose row object. Phase two is the zod check `alumniSheetSchema.parse`. One failing row fails the grid.
- `Facets` (`facets.dfy`) models `extractAlumniInfo`, whose insertion-ordered sets have `Distinct` as their reference definition.
- `Query` (`query.dfy`) models `getAlumniSchemaParams`, the query of the alumni endpoint, with zod's issues and messages.
- `Responses` (`responses.dfy`) models `handleErrorResponse` from `lib/response.ts`.
- `AlumniRoute` (`alumni_route.dfy`) models `getAlumni` and the `GET` handler of the alumni endpoint. It covers filtering, `slice` pagination and error replies, both as written and corrected.
- `Revalidate` (`revalidate.dfy`) models the guard of the revalidate endpoint, both as written and corrected.
- `Results` (`results.dfy`) holds `Option`, `Result` and zod's `Issue` (a path and a message).

Two parts of the program are parameters of the model rather than code in it:

- the URL Standard's parser behind `new URL`: `parse: string -> Option<ParsedUrl>`;
- JavaScript's `Number(text)` coercion: `toNumber: string -> JsNumber`.

## Model

| member | source | states |
|---|---|---|
| Text.ToLower | lib/string.ts:3 | same length; each upper-case ASCII letter lowered and every other character kept; no capital remains |
| Text.Includes | app/api/v1/alumni/route.ts:15-23 | true exactly when the needle occurs at some position of the text (the empty needle always does) |
| Text.Trim | services/alumni/alumni-schema.ts:114 | the result has no whitespace at either end and is the input with only whitespace removed before and after it |
| Text.TrimTrimmed | services/alumni/alumni-schema.ts:114 | trimming a trimmed string changes nothing |
| Text.Split | services/alumni/alumni-schema.ts:114 | at least one piece; no piece contains the separator; joining the pieces with the separator gives the input back |
| Text.SplitJoin | services/alumni/alumni-schema.ts:114 | splitting the join of separator-free pieces gives back exactly those pieces |
| Text.Join | lib/response.ts:27-28 | joining no parts gives the empty string, and joining one part gives that part |
| Text.JoinLength | lib/response.ts:27-28 | the joined text is as long as its parts together plus one separator between each two |
| Seqs.Filter | services/alumni/alumni-schema.ts:119-125 | the kept elements are exactly the input's elements that pass, in their original order (a subsequence), never more than the input; each passing element is kept as many times as it occurs and every other one not at all |
| Seqs.FilterAppend | services/alumni/alumni-schema.ts:123-125 | filtering a concatenation filters each part and concatenates the results |
| CamelCase.StripDisallowed | lib/string.ts:4 | only letters, digits and spaces of the input remain; text already made of them is unchanged |
| CamelCase.StripDisallowedFilters | lib/string.ts:4 | deleting the disallowed characters is filtering the text by "is a letter, digit or space", so the kept characters stay in order with their multiplicities |
| CamelCase.JoinWords | lib/string.ts:5 | the replacement never lengthens the text; its effect is stated by JoinWordsPrefix, TwoWordsJoined and JoinWordsCamel |
| CamelCase.JoinWordsPrefix | lib/string.ts:5 | a space-free stretch of text passes through the replacement unchanged |
| CamelCase.TwoWordsJoined | lib/string.ts:5 | two space-free words around one space become the first word, the character after the space upper-cased, and the rest |
| CamelCase.JoinWordsCamel | lib/string.ts:5 | on text whose every space is followed by a non-space character, the replacement is the camel-case reading: each space deleted and the character after it upper-cased |
| CamelCase.ToCamelCase | lib/string.ts:1-6 | a key is made of ASCII letters, digits and spaces only, is never longer than its header, and is empty for the empty header |
| CamelCase.NoSpaceHeader | lib/string.ts:1-6 | a header without spaces becomes its lower-cased text with the disallowed characters deleted, and has no capital |
| CamelCase.JoinWordsSingleSpaced | lib/string.ts:5 | on text whose every space is followed by a non-space character, joining words removes exactly the spaces, ignoring letter case |
| CamelCase.SingleSpacedHeader | lib/string.ts:1-6 | a header whose cleaned text has no double and no trailing space becomes that text with each space deleted and the character after it upper-cased; so the key has no spaces and, ignoring case, is the cleaned text without spaces |
| CamelCase.NormaliseTwice | lib/string.ts:1-6 | normalising a space-free key again lower-cases it, so the normaliser is not idempotent |
| CamelCase.Examples | lib/string.ts:1-6 | "Current Job", "Phone Number" and "Date of Birth" give the schema keys; a trailing space survives; a double space leaves one space; normalising "currentJob" again gives "currentjob" |
| Links.LinkOfKey | services/alumni/alumni-schema.ts:4-12 | a key is recognised exactly when it is the name of one of the seven links, and then names that link |
| Links.WithScheme | services/alumni/alumni-schema.ts:71-72 | the string handed to the parser always has an http(s) scheme; it is the input when the input has one, otherwise `https://` and the input |
| Links.WithSchemeIdempotent | services/alumni/alumni-schema.ts:71-72 | adding the scheme twice is adding it once |
| Links.NormalizeUrl | services/alumni/alumni-schema.ts:69-86 | a URL is returned exactly when the scheme-completed input parses and its hostname is dotted and not a loopback prefix; it is the parser's href |
| Links.NormalizeUrlSchemeInvariant | services/alumni/alumni-schema.ts:69-86 | normalising a scheme-completed input agrees with normalising the input; an accepted URL's hostname contains a dot and starts with none of `localhost`, `127.`, `0.0.0.0` |
| Links.ParseLink | services/alumni/alumni-schema.ts:88-99 | an `https://` value is kept; an `@handle` on a platform with a base URL becomes that URL and the handle; an `@handle` on a platform without one, and any value not starting with `@`, is kept |
| Links.ParseLinkHandle | services/alumni/alumni-schema.ts:88-99 | on each of the five handle platforms `@h` becomes the profile URL of `h`, which starts with `https://` |
| Links.ParseLinkIdempotent | services/alumni/alumni-schema.ts:88-99 | parsing an already parsed link changes nothing |
| Links.DropEmpty | services/alumni/alumni-schema.ts:119-121 | exactly the non-empty pieces are kept, in order, each as many times as it occurs |
| Links.TrimEach | services/alumni/alumni-schema.ts:122 | one trimmed piece per input piece, position by position |
| Links.Href | services/alumni/alumni-schema.ts:124 | a piece's URL is non-empty exactly when it validates to a non-empty URL, and then it is that URL |
| Links.Hrefs | services/alumni/alumni-schema.ts:123-124 | one URL (or `""`) per piece, position by position |
| Links.HrefSource | services/alumni/alumni-schema.ts:123-124 | every non-empty URL of the mapped list is the normalisation of some piece |
| Links.HrefOfPiece | services/alumni/alumni-schema.ts:123-124 | every piece's URL appears in the mapped list |
| Links.NormalizeEach | services/alumni/alumni-schema.ts:123-125 | the result is the non-empty URLs that validate, in piece order, each as many times as it occurs; each is the normalisation of some piece; every piece that validates contributes its URL |
| Links.NormalizeEachAppend | services/alumni/alumni-schema.ts:123-125 | normalising a concatenation of piece lists is normalising each and concatenating, so the URLs keep the order of their pieces |
| Links.NormalizeEachSingle | services/alumni/alumni-schema.ts:123-125 | a single piece gives its URL when it validates to a non-empty one, and nothing otherwise |
| Links.OtherLinks | services/alumni/alumni-schema.ts:119-125 | every URL of the `others` cell comes from a non-empty comma-separated piece that, trimmed, validates to it; every non-empty piece whose trimmed text validates contributes its URL |
| Links.TrimmedSource | services/alumni/alumni-schema.ts:122 | every trimmed piece is the trim of some input piece |
| Links.TrimmedPiece | services/alumni/alumni-schema.ts:122 | the trim of every input piece is among the trimmed pieces |
| Links.ColumnLink | services/alumni/alumni-schema.ts:115-136 | `others` gives the list of validating URLs when there is one; `website` gives the normalised URL when it validates; a handle platform always gives its parsed link; every entry is well shaped and of its column's kind |
| Sheet.CellAt | services/alumni/alumni-schema.ts:111 | a cell past the end of a short row reads as the empty string |
| Sheet.SplitSkills | services/alumni/alumni-schema.ts:113-114 | one trimmed skill per comma-separated piece, empty pieces included, so never an empty list |
| Sheet.SplitSkillsJoin | services/alumni/alumni-schema.ts:113-114 | splitting the comma-join of trimmed, comma-free skills gives those skills back |
| Sheet.RouteOf | services/alumni/alumni-schema.ts:110-139 | a column goes to skills exactly when its key is `skills`, as the trimmed comma-separated items; to links exactly when its key is a link name and its cell is non-empty, with the link that column's kind makes of the cell; it is dropped exactly when its key is excluded; otherwise it stores its raw cell |
| Sheet.RoutingKeysDisjoint | services/alumni/alumni-schema.ts:4-22 | `skills` is neither a link name nor excluded, and no link name is excluded, so the branches of the column routing never overlap |
| Sheet.LastWriterWins | services/alumni/alumni-schema.ts:109-140 | the last column that writes under a key decides that key's cell in the row object |
| Sheet.NoWriterAbsent | services/alumni/alumni-schema.ts:109-140 | a key that no column writes under is absent from the row object |
| Sheet.CollectedMembers | services/alumni/alumni-schema.ts:115-136 | an entry is collected exactly when some column's route appends it |
| Sheet.BuildLinks | services/alumni/alumni-schema.ts:107-142 | the row object's links are the appended entries of its columns, in column order |
| Sheet.LastColumnWins | services/alumni/alumni-schema.ts:109-140 | for a key that is neither a link name nor excluded, the row holds the cell of the last column normalising to it: raw, or split and trimmed for `skills` |
| Sheet.NoColumnAbsent | services/alumni/alumni-schema.ts:109-140 | a key that no header normalises to is absent from the row object |
| Sheet.BuildFieldKeys | services/alumni/alumni-schema.ts:109-140 | after folding the first `n` columns, every stored key is one of those columns' keys |
| Sheet.AssembleRow | services/alumni/alumni-schema.ts:104-142 | every key of the loose row object is the normalised key of some header |
| Sheet.FieldIssues | services/alumni/alumni-schema.ts:26-32 | a field has no issue exactly when it is present with the right shape; each issue's path is the field; a missing field gives "Required" |
| Sheet.ParseRow | services/alumni/alumni-schema.ts:144 | a row parses exactly when all six cell fields are present with the right shape; a parsed record keeps the row's links; a failure lists at least one issue, each on one of the six fields |
| Sheet.CellFieldColumns | services/alumni/alumni-schema.ts:109-144 | when a row parses, each of the six cell fields comes from some column, the last with that key |
| Sheet.CellFromColumn | services/alumni/alumni-schema.ts:109-140 | a cell field is stored from the last column with its key, as that column's cell |
| Sheet.ExcludedNeverStored | services/alumni/alumni-schema.ts:137-139 | an excluded column never reaches the row object, whatever the headers |
| Sheet.RowLinks | services/alumni/alumni-schema.ts:107-142 | the row's links are its columns' entries in column order; each is well shaped and is the link its column's kind makes of a non-empty cell of that column |
| Sheet.IssuesFor | services/alumni/alumni-schema.ts:26-39 | no issues exactly when every listed field is present with its type; each issue names one listed field that is not; each missing field gets "Required" |
| Sheet.Validate | services/alumni/alumni-schema.ts:26-39 | a record exactly when all six cell fields are present with the right type, carrying those cells and the collected links; otherwise the issues, never none |
| Sheet.MapAll | services/alumni/alumni-schema.ts:104-145 | a throwing `map`: every result in order when each element succeeds, otherwise the error of the first element that fails |
| Sheet.ParseRows | services/alumni/alumni-schema.ts:104-145 | one record per data row in row order when every row validates, otherwise the issues of the first row that does not |
| Sheet.ParseSheetData | services/alumni/alumni-schema.ts:101-146 | an empty grid or a header row alone gives no records; a success has one record per data row |
| Sheet.RecordFromColumns | services/alumni/alumni-schema.ts:109-144 | every record field has a column, and each field holds the cell of the last column normalising to it, split and trimmed for `skills` |
| Sheet.RecordSkills | services/alumni/alumni-schema.ts:113-114 | every record has at least one skill, and every skill is trimmed |
| Sheet.RecordLinks | services/alumni/alumni-schema.ts:115-142 | a record's links are its row's link entries in column order; each is well shaped and is the link its column's kind makes of a non-empty cell of that column |
| Sheet.MissingColumnFails | services/alumni/alumni-schema.ts:101-146 | a header row lacking one of the six cell fields fails every grid with a data row, and the issues name that field "Required" |
| Sheet.SheetRecordsHaveSkills | services/alumni/alumni-schema.ts:101-146 | every record of a parsed grid has a non-empty list of trimmed skills |
| Facets.DistinctSpec | services/alumni/alumni-schema.ts:41-65 | an insertion-ordered set holds exactly the non-empty values, none twice, ordered by first appearance |
| Facets.DistinctSnoc | services/alumni/alumni-schema.ts:47-57 | adding one value appends it once, when it is non-empty and new |
| Facets.AddSkills | services/alumni/alumni-schema.ts:53-57 | the inner loop extends the skill set by one record's skills |
| Facets.ExtractAlumniInfo | services/alumni/alumni-schema.ts:41-65 | the three lists are the distinct non-empty domiciles, companies and skills of the records, in order of first appearance |
| Query.NumberIssuesSpec | services/alumni/alumni-schema.ts:148-161 | each check's issue appears exactly when that check fails; NaN stops at the type issue; no issues exactly when the value is a whole number within bounds |
| Query.NumberField | services/alumni/alumni-schema.ts:149-161 | an absent value gives the default; a present one succeeds exactly when its number is acceptable, and is that number; a failure carries the field's issues |
| Query.ParseQuery | services/alumni/alumni-schema.ts:148-166 | success exactly when both numbers are acceptable; then page is at least 1, pageSize is 1..100, defaults are 1 and 10, and missing filters are ""; failures name only `page` and `pageSize` |
| Query.NumberIssues | services/alumni/alumni-schema.ts:149-161 | a number has no issues exactly when it is acceptable; every issue is on the field's own key; NaN gives only the type issue; there are at most three |
| Query.EmptyQueryDefaults | services/alumni/alumni-schema.ts:148-166 | the empty query gives page 1 of size 10 with no filters |
| Query.HalfPageTwoIssues | services/alumni/alumni-schema.ts:149-154 | `page=0.5` fails both the integer and the minimum check, in that order |
| Responses.FormatIssue | lib/response.ts:27 | an issue reads as its path joined with ".", then `": "`, then its message; for a one-key path, exactly `key: message` |
| Responses.FormatIssues | lib/response.ts:26-28 | the formatted list is empty exactly when there are no issues |
| Responses.FormatIssuesAppend | lib/response.ts:26-28 | formatting two lists of issues is formatting each and joining them with ", " |
| Responses.IssueMentioned | lib/response.ts:26-28 | every issue's `path: message` text occurs in the formatted list |
| Responses.HandleError | lib/response.ts:21-46 | 400 exactly for a zod error, with the prefixed issue list; otherwise 500 with the error's message, the thrown string, or the generic sentence |
| Responses.MissingFieldMessage | lib/response.ts:25-34 | one missing field reads "Invalid request parameters: field: Required" |
| Responses.ValidationReplyMentions | lib/response.ts:25-34 | a validation reply is a 400 whose message mentions every issue |
| AlumniRoute.GetAlumni | services/alumni/get-alumni.ts:5-17 | a failed read is rethrown; no values or an empty grid gives no records; otherwise the grid's records, or its row issues as a zod error |
| AlumniRoute.Keep | app/api/v1/alumni/route.ts:13-24 | on `domicile` the callback is the four-filter match; on `address` it throws exactly when the name and skills tests pass, and otherwise keeps nothing |
| AlumniRoute.FilterByDomicile | app/api/v1/alumni/route.ts:13-24 | reading `domicile`, the filter never throws and keeps exactly the matching records, in order |
| AlumniRoute.FilterByAddress | app/api/v1/alumni/route.ts:13-24 | reading `address`, the filter throws the TypeError exactly when some record passes the name and skills tests, and otherwise keeps nothing |
| AlumniRoute.EmptyFilterMatches | app/api/v1/alumni/route.ts:15-23 | an empty filter matches any text |
| AlumniRoute.FilterRecords | app/api/v1/alumni/route.ts:13-24 | the filter succeeds exactly when no record's callback throws; it keeps only records the callback accepted; a throw is some record's throw |
| AlumniRoute.SliceIndex | app/api/v1/alumni/route.ts:26-29 | a slice index within the list is unchanged; a negative one counts from the end; either is clamped to the list |
| AlumniRoute.Slice | app/api/v1/alumni/route.ts:26-29 | the slice is the run of elements from the resolved start up to the resolved end, empty when the end is not after the start |
| AlumniRoute.Paginate | app/api/v1/alumni/route.ts:26-29 | page `p` of size `n` holds at most `n` records, entry `j` being record `(p-1)*n + j`, and is empty past the end |
| AlumniRoute.PageOfIndex | app/api/v1/alumni/route.ts:26-29 | every record appears on page `i / n + 1`, at position `i % n` |
| AlumniRoute.Respond | app/api/v1/alumni/route.ts:6-35 | a bad query is a 400 with the prefixed issue list; a failing sheet goes through the error handler; a page holds only sheet records, never more than the page size; a 400 comes only from a zod error |
| AlumniRoute.HandleGet | app/api/v1/alumni/route.ts:6-12 | a bad query is a 400 whatever the sheet; a failed read with a valid query is that failure through the error handler; a page never holds more than the page size, which is at most 100 |
| AlumniRoute.Get | app/api/v1/alumni/route.ts:6-35 | with the location read from `domicile`, every record of a page matches all four filters of the parsed query |
| AlumniRoute.GetAsWritten | app/api/v1/alumni/route.ts:6-35 | as written, a page never holds a record |
| AlumniRoute.RespondByDomicile | app/api/v1/alumni/route.ts:6-35 | a bad query is a 400 naming its issues; a failing sheet goes through the error handler; otherwise the reply is the requested page of the matching records in sheet order |
| AlumniRoute.RespondByAddress | app/api/v1/alumni/route.ts:6-35 | as written, a valid query against records one of which passes the name and skills tests answers 500 with the TypeError; otherwise it answers an empty page |
| AlumniRoute.AsWrittenDefaultQueryFails | app/api/v1/alumni/route.ts:19-21 | as written, the default query against any sheet with a record answers 500 |
| AlumniRoute.DefaultQueryFirstPage | app/api/v1/alumni/route.ts:6-35 | with the location read from `domicile`, the default query answers the sheet's first ten records |
| Revalidate.GuardAsWritten | app/api/v1/revalidate/route.ts:10-15 | as written, a tag is revalidated exactly when tag and id are non-empty, id is the secret, and the tag is NOT a known cache key |
| Revalidate.Guard | app/api/v1/revalidate/route.ts:10-15 | corrected, a tag is revalidated exactly when tag and id are non-empty, id is the secret, and the tag is a known cache key |
| Revalidate.GuardsDisagree | app/api/v1/revalidate/route.ts:10 | with the right secret, the written guard revalidates exactly the tags the corrected one refuses; a known tag gets 400 as written and 200 corrected |
| Revalidate.WrongSecretRejected | app/api/v1/revalidate/route.ts:10-12 | without the right secret nothing is revalidated, by either guard |
| Revalidate.EmptySecretRejects | app/api/v1/revalidate/route.ts:10-12 | an empty secret can never be matched |

## Left out

- The URL Standard's basic URL parser behind `new URL` is the parameter `parse`. The model decides only what the code does with the hostname and href the parser returns.
- `Number(text)`, used by `z.coerce.number()`, is the parameter `toNumber`. Double precision is not modelled: zod's integer and bound checks are stated on exact reals.
- Text.ToLower: maps only ASCII letters. JavaScript's full Unicode case mapping is not modelled. So CamelCase.ToCamelCase deletes a non-ASCII capital whose lower case is ASCII, such as the Kelvin sign U+212A. The source keeps it as `k`.
- Reading the Google Sheet, including the environment variables and credentials it uses, is the parameter `Fetch`. It is either the values the API returned or what the client threw.
- The following are not modelled:
  - response headers, JSON serialisation and `createErrorResponse`, of which only the status and the `error` text are kept;
  - `createSuccessResponse`, of which only its 200 and its `data` are kept.
- Logging (`console.warn`, `console.error`) is left out because it does not change any reply.
- `revalidateTag(tag)` and `Date.now()` in the revalidate endpoint are side effects and a clock. The model keeps only which tag is revalidated.
- `CACHE_KEYS`: `lib/constants` is not part of this model, so the cache keys are a parameter.
- Reading the query string is not modelled. `Object.fromEntries(searchParams)` keeps the last value of a repeated parameter, and `searchParams.get` returns the first. The model takes the resulting `Option<string>` values.
- zod is modelled as its version 3 behaves: the issue texts ("Required", "Expected number, received nan", the messages given to `int`, `min` and `max`) and the order in which the checks of one field report. Another zod version may word or order them differently.
- The zod type-mismatch issues for the record schema cannot arise, because phase one only ever stores a list under `skills` and strings elsewhere. They are modelled but never reached.
- The Next.js caching configuration, the React components and the page are not part of this model.

## Behaviour of the code worth knowing

- **Header normaliser.** `toCamelCase` is not idempotent: `toCamelCase("currentJob")` is `"currentjob"` (`CamelCase.Examples`, `CamelCase.NormaliseTwice`).
- **`others` column.** The code drops empty pieces first and trims afterwards, so a whitespace-only piece reaches the URL check as `""` (`Links.OtherLinks`).
- **Loopback hosts.** Every hostname that starts with `localhost`, `127.` or `0.0.0.0` is rejected, not only those exact hostnames (`Links.NormalizeUrlSchemeInvariant`).

## Findings

| source | as written | input that shows it | evidently intended | confidence | as-written member | corrected member |
|---|---|---|---|---|---|---|
| app/api/v1/alumni/route.ts:19-21 | the location filter calls `toLowerCase` on `record.address`, a field the record schema strips, so it throws a TypeError and the endpoint answers 500 | `GET /api/v1/alumni` with no parameters, against a sheet with one valid data row | filter the location on `record.domicile` | high, not executed | AlumniRoute.AsWrittenDefaultQueryFails | AlumniRoute.DefaultQueryFirstPage |
| app/api/v1/revalidate/route.ts:10 | `!!CACHE_KEYS.includes(tag)` rejects every known cache tag and lets every unknown one through | `?tag=<a key of CACHE_KEYS>&id=<REVALIDATE_ID>` answers 400 | reject a tag that is not a known cache key (`!CACHE_KEYS.includes(tag)`) | medium (the contents of `CACHE_KEYS` are not part of this model), not executed | Revalidate.GuardAsWritten | Revalidate.Guard |
