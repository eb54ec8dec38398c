# crowdin-translations-progress-action, modelled in Dafny

The action reads a Crowdin project's per-language translation progress. It
renders the progress as two HTML tables, "Available" and "In progress",
split at a percentage threshold. It writes the tables into a file between
two marker comments. This project models the deterministic core of
`src/index.ts` and proves the properties the code promises:

- **Environment** (`environment.dfy`): the pre-check of the three
  environment variables. Each value is an `Option<string>`; a variable
  that is unset or empty is missing. The check fails naming the first
  missing variable in the fixed order token, project id, base URL.
- **Progress** (`progress.dfy`): the post-processing of the fetched
  response. The payloads are collected into an array, which is then sorted
  in place with the source's comparator. A failed fetch (the `.catch`
  path) is `None`.
- **Decimal** (`decimal.dfy`): the rendering of an integer in template
  text (`${language.translationProgress}`), as JavaScript writes integers
  below 10^21 in magnitude. It is proved injective through a parse round
  trip.
- **Buckets** (`buckets.dfy`): the two `filter` calls that split the list
  at the threshold.
- **Table** (`table.dfy`): `generateTableSection` and `generateMarkdown`.
  Both are imperative methods proved against the pure `TableSection`.
  - JavaScript's `%` is modelled exactly: a remainder truncated toward
    zero, with NaN for a zero row width.
  - The row-tag edges are modelled as the code writes them: a last,
    partial row is left open, and a width of 1 gives one `<tr>` but N
    `</tr>`.
- **Readme** (`readme.dfy`): `writeReadme`.
  - The replace with `/START.*END/gs` is modelled as a regular-expression
    scan: the leftmost START, the greedy run to the last END after it, and
    the global loop resuming after each match.
  - ECMAScript's `$` substitution patterns in the replacement string are
    modelled as well.
  - The file system is a class holding a map from path to contents.
- **Action** (`action.dfy`): the composition of rendering and splicing.

Two behaviours of the code are worth stating up front:

- The replace does not replace every marked span. The greedy dot-all
  match runs from the first START to the last END, so at most one
  replacement happens and any markers in between are consumed.
- The comparator at `src/index.ts:58` never returns 0. The order of equal
  progress values is therefore left open: `SortByProgress` promises only a
  non-increasing permutation.

## Model

| member | source | states |
|---|---|---|
| Environment.Present | src/index.ts:24-34 | a variable passes the `!x` test exactly when it is set and not the empty string |
| Environment.MissingMessage | src/index.ts:24-36 | the failure text "Missing environment variable: " followed by the variable's name |
| Environment.FirstMissing | src/index.ts:23-36 | the index of the first value that is absent or empty, all earlier ones present; None exactly when all are present |
| Environment.CheckEnvironmentVariables | src/index.ts:20-37 | passes exactly when all three variables are non-empty; otherwise fails with one of the three "Missing environment variable" messages |
| Environment.CheckReportsFirstMissing | src/index.ts:20-37 | the check's outcome is determined by the first missing variable in the order token, project id, base URL, and its message names that variable |
| Environment.FailureNamesFirstMissing | src/index.ts:23-36 | a failure's message names a variable that is missing while every variable checked before it is present |
| Progress.Payloads | src/index.ts:53-56 | the collected list has one entry per response item, in order, each the item's `data` |
| Progress.Compare | src/index.ts:58 | the comparator is never 0 and is positive exactly when a's progress is below b's |
| Progress.CompareTies | src/index.ts:58 | for equal progress the comparator gives -1 both ways round, so ties have no defined order |
| Progress.InsertLeft | src/index.ts:58 | inserting element i into a sorted prefix leaves a[..i+1] non-increasing and a permutation of the old a[..i+1], and leaves a[i+1..] untouched |
| Progress.SortByProgress | src/index.ts:58 | the array is afterwards non-increasing in progress and a permutation of its old contents |
| Progress.GetLanguagesProgress | src/index.ts:50-65 | a failed fetch gives no list; otherwise the list is a permutation of the response payloads with non-increasing progress |
| Decimal.NatToString | src/index.ts:99 | the decimal text of a natural is non-empty digits without a leading zero |
| Decimal.NatToStringRoundTrip | src/index.ts:99 | reading the digits back gives the number |
| Decimal.IntToString | src/index.ts:99 | the text of `${translationProgress}`: '-' followed by the digits of the magnitude when negative, else the digits; never empty |
| Decimal.IntToStringRoundTrip | src/index.ts:99 | the rendering of an integer is well-formed and parses back to the integer, so distinct progress values render differently |
| Buckets.Filter | src/index.ts:73-74 | the result is no longer than the input and every element satisfies the predicate |
| Buckets.AtLeast | src/index.ts:73 | the callback `language.translationProgress >= minimumCompletionPercent` |
| Buckets.Below | src/index.ts:74 | the callback `language.translationProgress < minimumCompletionPercent` |
| Buckets.AvailableBucket | src/index.ts:73 | the list filtered by AtLeast |
| Buckets.InProgressBucket | src/index.ts:74 | the list filtered by Below |
| Buckets.Available | src/index.ts:73 | an absent list stays absent (`languages?.filter`) |
| Buckets.InProgress | src/index.ts:74 | an absent list stays absent (`languages?.filter`) |
| Buckets.FilterIsSubsequence | src/index.ts:73-74 | the filter keeps the input order: its result is a subsequence of the input |
| Buckets.FilterMembers | src/index.ts:73-74 | every element kept comes from the input |
| Buckets.FilterCounts | src/index.ts:73-74 | an element is kept as often as it occurs in the input when it satisfies the predicate, and never otherwise |
| Buckets.BucketsShareOut | src/index.ts:73-74 | the two buckets' multisets add up to the list's and their sizes to N |
| Buckets.BucketsPartition | src/index.ts:73-74 | "Available" holds only entries with progress >= threshold and "In progress" only entries below it; both keep order, every entry lands in exactly one, and the sizes sum to N |
| Buckets.SortedBucketsSplit | src/index.ts:58-74 | on a sorted list the "Available" bucket followed by the "In progress" bucket is the list itself |
| Table.JsRemainder | src/index.ts:95-101 | JavaScript `%`: NaN exactly for a zero divisor; for a non-negative index, a value in 0..abs(w)-1 |
| Table.JsRemainderTruncates | src/index.ts:95-101 | the remainder is smaller than the divisor in magnitude, never opposite in sign to the index, and index minus remainder is a multiple of the divisor |
| Table.RowWidth | src/index.ts:84-86 | the effective row width is the smaller of the count and the configured width |
| Table.OpensRow | src/index.ts:95 | `<tr>` goes before cell i when `i % W == 1` (JavaScript remainder, false for NaN) or i == 1 |
| Table.ClosesRow | src/index.ts:101 | `</tr>` goes after cell i when `i % W == 0` (false for NaN) |
| Table.SectionHeader | src/index.ts:88-91 | the section's opening text "\n\n" + "#### " + title + "\n\n" + "<table>" |
| Table.FlagUrl | src/index.ts:99 | the flag image address: the repository's raw `1.0/flags/` directory, the language id and ".png" |
| Table.CellHtml | src/index.ts:99 | the cell template: the flag image then the progress followed by "%", in the fixed `<td>`/`<img>`/`<div>` markup |
| Table.PieceText | src/index.ts:95-102 | the text each emitted piece stands for: `<tr>` for a row opening, `</tr>` for a row closing, the cell template for a cell |
| Table.CellPieces | src/index.ts:95-103 | what one `forEach` step emits for the language at 1-based index i: `<tr>` when the row opens there, the cell, `</tr>` when the row closes there |
| Table.RowPieces | src/index.ts:93-104 | what the whole `forEach` emits between `<table>` and `</table>`: the steps for the languages in order, at 1-based indexes 1..N |
| Table.TableSection | src/index.ts:79-109 | the section text: "" for an absent or empty bucket, else the header, each cell with its row tags at the clamped width, and `</table>` |
| Table.AppendCell | src/index.ts:93-104 | one loop step appends `<tr>` iff index+1 % W == 1 or index+1 == 1, then the cell, then `</tr>` iff index+1 % W == 0 |
| Table.GenerateTableSection | src/index.ts:79-109 | the built text equals the section function: "" for an absent or empty bucket, else header, the cells with their row tags, and `</table>` |
| Table.CellPiecesCell | src/index.ts:93-104 | each loop step contributes exactly its own cell |
| Table.RowPiecesCells | src/index.ts:93-104 | the cells of a table are the bucket's languages, once each, in input order |
| Table.OpenCountValue | src/index.ts:95-97 | the number of `<tr>` for N >= 1 cells: ceil(N/abs(W)) for abs(W) >= 2, else 1 |
| Table.CloseCountValue | src/index.ts:101-103 | the number of `</tr>`: floor(N/abs(W)), 0 for W = 0 |
| Table.RowPiecesCounts | src/index.ts:93-104 | the `<tr>` and `</tr>` pieces of a table occur exactly the counted number of times |
| Table.RowTagCounts | src/index.ts:93-104 | for W >= 2: floor(N/W) `</tr>` and ceil(N/W) `<tr>`; for W = 1: one `<tr>` and N `</tr>` |
| Table.LastRowClosed | src/index.ts:101-103 | the table ends with `</tr>` exactly when N % W == 0, so a partial last row stays open |
| Table.SectionShape | src/index.ts:88-106 | a non-empty section is the header "\n\n#### title\n\n<table>", the row pieces, then `</table>`, and its cells are the bucket in order |
| Table.GenerateMarkdown | src/index.ts:68-77 | the markdown is the "Available" section followed by the "In progress" section |
| Table.MarkdownEmptyIffNoLanguages | src/index.ts:73-82 | the markdown is empty exactly when the list is absent (failed fetch) or empty |
| Table.CellHasNoDollar | src/index.ts:99 | a cell holds no '$' when its language id holds none |
| Table.MarkdownHasNoDollar | src/index.ts:68-109 | the markdown holds no '$' when no language id does |
| Readme.Wrap | src/index.ts:122 | the START marker, a newline, the markdown, a newline and the END marker |
| Readme.Substitute | src/index.ts:123 | ECMAScript's replacement patterns without capture groups: `$$` is '$', `$&` the match, `` $` `` the text before, `$'` the text after; any other '$' is literal |
| Readme.ReplaceFrom | src/index.ts:123 | the `g` loop: each leftmost match from the resume position is replaced, and the search resumes after it |
| Readme.RegexReplace | src/index.ts:123 | `fileContents.replace(/START.*END/gs, markdown)`: the `g` loop from position 0 |
| Readme.LastOccurrence | src/index.ts:123 | the last position in a range where the pattern occurs, or None when it occurs nowhere in it |
| Readme.MatchAt | src/index.ts:123 | a match starting at p needs START at p, leaves room for both markers, and ends with an END marker |
| Readme.MatchEndsWithLastEnd | src/index.ts:123 | the greedy `.*` makes the match end with the last END marker of the text |
| Readme.NoMatchAt | src/index.ts:123 | no match starts at p exactly when p holds no START or no END begins after it |
| Readme.NoMatchNoStart | src/index.ts:123 | where no match starts although an END follows far enough, no START marker is present |
| Readme.Search | src/index.ts:123 | the leftmost match at or after the resume position, with no match starting before it |
| Readme.MarkerCharacters | src/index.ts:122-123 | '<' occurs in each marker only at its start, and neither marker holds '$' |
| Readme.SubstituteLiteral | src/index.ts:123 | a replacement without '$' is inserted literally |
| Readme.FirstMatchIsWholeRegion | src/index.ts:123 | the regex matches from the first START to the end of the last END, and nothing matches after it, so the g flag replaces once |
| Readme.MatchIsFirstStartLastEnd | src/index.ts:123 | any match found starts at the first START and ends with the last END |
| Readme.ReplaceRegion | src/index.ts:123 | the replace keeps the text before the first START and after the last END, and substitutes the replacement for the region |
| Readme.ReplaceNoRegion | src/index.ts:123 | without a START followed by an END the contents are returned unchanged |
| Readme.SpliceMarkedRegion | src/index.ts:122-123 | with '$'-free markdown, the result is the text before the first START, the wrapped markdown, and the text after the last END |
| Readme.SpliceIdempotent | src/index.ts:122-123 | with '$'-free markdown, replacing a second time changes nothing |
| Readme.ReplaceSplicedAgain | src/index.ts:122-123 | text made of a START-free prefix, the wrapped markdown and an END-free suffix is its own replace |
| Readme.MissingFileMessage | src/index.ts:115 | the error text "The file " + path + " doesn't exists" |
| Readme.WriteReadme | src/index.ts:111-126 | a missing file fails with "The file X doesn't exists" and changes nothing; otherwise only that file is rewritten, with the marked region replaced |
| Action.UpdateReplacesMarkedRegion | src/index.ts:68-126 | when no language id holds '$', the updated file keeps everything outside the marked region, holds the rendered tables between the markers, and a second update changes nothing |

## Left out

- The Crowdin API client (`TranslationStatus`, `withFetchAll`, pagination, lines 42-49) is a network call. Its result is the input `Option<seq<ResponseItem>>`, with `None` for a rejected promise.
- The `core.info` and `console.error` logging (lines 21, 40, 55, 63-64, 69, 118) has no effect on the results and is not modelled.
- `run`, `core.setFailed` and the promise sequencing (lines 8-18) only chain the operations in order. An error is an `Outcome.Fail` carrying the message.
- `dotenv.config()` and `process.env` are the three `Option<string>` parameters of `CheckEnvironmentVariables`.
- `core.getInput` coercion: the threshold, the row width and the file path are parameters. The threshold and row width are integers. An unset input reads as 0 and is covered: a threshold of 0 is ordinary and a row width of 0 is the NaN remainder of `JsRemainder`. NaN and fractional values are not modelled.
- Progress.SortByProgress: `Array.prototype.sort` leaves its algorithm to the engine, and with this comparator the order of equal progress values depends on it. The model sorts by insertion with the same comparator and promises only a non-increasing permutation.
- `existsSync`, `readFileSync` and `writeFileSync` act on a map from path to contents. Encodings, `toString()` of the buffer and file-system errors are not modelled.
- Decimal.IntToString: JavaScript writes integers of magnitude 10^21 and above in exponent form ("1e+21"); the model always writes all digits. Progress values are percentages, far below that bound.
- Strings are sequences of characters. JavaScript works on UTF-16 code units; the model does not tell code units apart from characters.
- The commented-out `getFlagEmoji` (lines 128-136) is dead code.
