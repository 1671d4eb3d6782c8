# PDF merge/split service: verified model of the assembly core

This project models the core of a small Express service (`script.js`) that
merges uploaded PDF files, splits one uploaded PDF by a page-range
expression, and serves the results for one hour. It covers three parts:

- **The page-range parser** (`parsePageRanges`). It turns text such as
  `"1,3-4"` into zero-based page groups, or `null`.
  - `RangeParser.dfy` holds the declarative definition (`PageRanges`) and the
    imperative parser the source runs (`ParsePageRanges`, with its
    range-counting loop `CountUp`).
  - `JsText.dfy` models the JavaScript built-ins it depends on:
    `String.prototype.split` with a one-character separator,
    `String.prototype.trim` (ECMAScript white space and line terminators),
    `parseInt` without a radix (leading white space, sign, `0x` prefix,
    longest digit run, trailing text ignored, `NaN` as `None`), and template
    rendering of non-negative integers.
- **Page assembly** (`Assembly.dfy`):
  - pages are opaque values;
  - a document under construction is an `OutputDocument` object whose
    `addPage` appends;
  - a merge concatenates the uploads' pages;
  - a split copies one group of pages per output, and labels each output
    with its 1-based first and last page.
- **The handlers and the artifact lifecycle** (`Handlers.dfy`):
  - the disk is a map from path to content;
  - each pending clean-up timer is the list of paths it deletes;
  - a flag says whether the `results` directory exists;
  - a `Server` object holds all three and runs `POST /api/merge`,
    `POST /api/split`, `GET /download/:filename`, and the firing of a timer;
  - each method is proved equal to a function of the old state (`MergeOutcome`,
    `SplitOutcome`, `DownloadOutcome`, `Fire`), and the lemmas state the
    service's guarantees about those functions.

Calls to `Date.now()` are parameters: a `stamp` for a merge, and a `clock`
function for a split, whose value at `i` is the `i`-th reading.

## Model

| member | source | states |
|---|---|---|
| JsText.Split | script.js:172 | `split` always yields at least one piece |
| JsText.SplitPiecesFree | script.js:172 | no piece contains the separator |
| JsText.JoinSplit | script.js:172 | joining the pieces with the separator gives back the text |
| JsText.SplitJoin | script.js:172 | splitting a join of separator-free pieces gives back the pieces |
| JsText.SplitCons | script.js:172 | the first separator ends the first piece |
| JsText.SplitPair | script.js:176 | `x-y` splits into exactly `[x, y]` |
| JsText.SplitTrailingSeparator | script.js:172 | a trailing separator adds one empty piece (`"1,"` gives `["1", ""]`) |
| JsText.SplitWithoutSeparator | script.js:172 | a text without the separator splits into itself |
| JsText.Trim | script.js:176 | `trim` is `TrimEnd` of `TrimStart`; `TrimSpec` states what it keeps |
| JsText.TrimStartSpec | script.js:176 | the start of a trim drops exactly the leading white space and keeps the rest |
| JsText.TrimEndSpec | script.js:176 | the end of a trim drops exactly the trailing white space and keeps the rest |
| JsText.TrimSpec | script.js:176 | `trim` keeps the part of the text between its leading and its trailing white space, and that part neither starts nor ends with white space |
| JsText.TrimNoWhiteSpace | script.js:176 | `trim` leaves a text with no white space unchanged |
| JsText.DigitRun | script.js:176 | the digit run `parseInt` reads fits within the text |
| JsText.Decimal | script.js:114 | the rendering of an integer is never empty |
| JsText.DecimalDigits | script.js:114 | a rendering has only decimal digits and no leading zero |
| JsText.DecimalValue | script.js:114 | the digits of a rendering evaluate back to the number |
| JsText.DigitRunAllDigits | script.js:188 | a text made only of digits is read whole |
| JsText.DigitRunSplit | script.js:188 | the digit run stops at the first non-digit |
| JsText.ParseIntIgnoresTail | script.js:176 | `parseInt` of a number's rendering followed by a non-digit (not `x` after a lone `0`) gives the number |
| JsText.ParseInt | script.js:176 | `parseInt` without a radix: white space, optional sign, `0x` prefix, longest digit run, `NaN` when the run is empty |
| JsText.ParseIntNeedsDigit | script.js:188 | a text without any decimal digit is `NaN` |
| JsText.ParseIntDecimal | script.js:188 | `parseInt` inverts decimal rendering |
| RangeParser.Interval | script.js:182-185 | `[first, ..., last]` has `last-first+1` elements, each its offset from `first` |
| RangeParser.ZeroBased | script.js:176 | a piece read as `parseInt(piece.trim()) - 1`, `NaN` as `None` (`ZeroBasedDecimal`, `NonNumericPiece`) |
| RangeParser.SpanEnds | script.js:176 | a span's `[start, end]` are the first two dash-separated pieces, each read zero-based (`SpanEndsOf`, `ExtraPiecesIgnored`) |
| RangeParser.SpanGroup | script.js:178-186 | an accepted span is a non-empty, in-bounds run of consecutive pages |
| RangeParser.SingleGroup | script.js:190-194 | an accepted single page is one in-bounds index |
| RangeParser.TokenGroup | script.js:175-195 | an accepted token's group is non-empty, in bounds and consecutive |
| RangeParser.PageRanges | script.js:168-199 | the meaning of an expression: missing or empty is `null`; otherwise every comma token must be valid, and then one group per token in token order (`ValidResult`, `SpanToken`, `SingleToken` and `TokenOrderKept` characterise it) |
| RangeParser.ParsePageRanges | script.js:168-199 | the imperative parser returns exactly `PageRanges`: all or nothing, token by token |
| RangeParser.ParseToken | script.js:175-195 | one pass of the loop body gives exactly the token's group, or `None` where the source returns `null` |
| RangeParser.CountUp | script.js:182-185 | the counting loop builds `[first, ..., last]` |
| RangeParser.RejectsOnBadToken | script.js:178-180 | one invalid token makes the whole expression `null` |
| RangeParser.AcceptsTokenwise | script.js:174-198 | with every token valid, the result is the tokens' groups in token order |
| RangeParser.ValidResult | script.js:168-199 | a non-null result: the input was present and non-empty; one group per comma token, in order; each group non-empty, in bounds and consecutive; so never empty (the handler's `length === 0` test cannot fire) |
| RangeParser.TrailingCommaRejected | script.js:172-192 | a trailing comma makes the expression invalid |
| RangeParser.LeadingDashRejected | script.js:176-180 | a token starting with `-` is rejected |
| RangeParser.SpanEndsOf | script.js:176 | a span's ends are read from the first two dash-separated pieces |
| RangeParser.ExtraPiecesIgnored | script.js:176 | `x-y-z` reads as `x-y` |
| RangeParser.ZeroBasedDecimal | script.js:176 | a page number in decimal reads back as its zero-based index |
| RangeParser.SpanToken | script.js:175-186 | `a-b` is valid iff `1 <= a <= b <= pageCount`, and then denotes pages `a-1 .. b-1` ascending |
| RangeParser.SingleToken | script.js:187-195 | `n` is valid iff `1 <= n <= pageCount`, and then denotes page `n-1` |
| RangeParser.OneToken | script.js:172-198 | an expression without commas yields that token's group or `null` |
| RangeParser.TwoTokens | script.js:172-198 | two tokens yield both groups, in input order, or `null` if either fails |
| RangeParser.TokenOrderKept | script.js:172-198 | groups keep input order and are not sorted |
| RangeParser.NonNumericPiece | script.js:176 | a piece not starting with white space, a sign or a digit reads as `NaN` |
| RangeParser.NonNumericRejected | script.js:175-192 | a token not starting with white space, `+` or a digit is rejected, both as a single page (`"abc"`) and as a span (`"a-3"`) |
| Assembly.OutputDocument.constructor | script.js:40 | a new document has no pages |
| Assembly.OutputDocument.AddPage | script.js:51 | `addPage` appends one page at the end |
| Assembly.OutputDocument.CopyIn | script.js:110-111 | copying and adding pages appends the source pages at the given indices, in index order |
| Assembly.Select | script.js:110 | a copy has one page per index |
| Assembly.SelectAt | script.js:110 | copied page `j` is the source page at index `j` |
| Assembly.AllIndices | script.js:50 | `getPageIndices()`: the indices `0 .. n-1` in order (`SelectAll`) |
| Assembly.SelectAll | script.js:50 | copying every page index copies the whole document |
| Assembly.MergedPageCount | script.js:47-51 | a merge's page count is the sum of its sources' counts |
| Assembly.ConcatAppend | script.js:47-51 | merging is associative over the list of sources |
| Assembly.SplitDocs | script.js:108-111 | a split produces one document per group |
| Assembly.ConcatInBounds | script.js:108-111 | the indices of in-bounds groups, taken together, are in bounds |
| Assembly.SelectAppend | script.js:110 | copying `a ++ b` gives the copy of `a` followed by the copy of `b` |
| Assembly.MergeOfSplit | script.js:108-111 | merging a split's outputs in order gives the source pages at every group's indices |
| Assembly.TilesCover | script.js:108-111 | consecutive runs from page 0 to the last page cover every page once, in order |
| Assembly.ContiguousStart | script.js:108-111 | in such a tiling each run starts at or after page 0 and is ascending |
| Assembly.SplitThenMergeRebuilds | script.js:108-111 | splitting into consecutive covering runs, then merging, rebuilds the document |
| Assembly.SplitLabel | script.js:114 | an output's label is its 1-based first page, `-`, and its 1-based last page |
| Assembly.LabelRoundTrip | script.js:114 | an output's `first-last` label, parsed as a range token, gives back its own group |
| Handlers.ResultPath | script.js:59 | `path.join('results', name)` for a plain name: `results/` followed by the name (`IssuedNamesPlain`; names with `/` or `..` are under "Left out") |
| Handlers.MergedName | script.js:58 | the merge result is named `merged_<stamp>.pdf` |
| Handlers.SplitName | script.js:114 | output names are `split_<first>-<last>_<stamp>.pdf` |
| Handlers.ZipName | script.js:125 | the zip is named `split_results_<stamp>.zip` |
| Handlers.IssuedNamesPlain | script.js:58-154 | every name put in a download link is a plain file name (no `/`, not `.` or `..`), so `path.join('results', name)` is `results/` followed by it |
| Handlers.MergeSteps | script.js:47-55 | the merge loop: per upload, read and load it, append its pages, delete it; stops with the disk as it is at the first read or load that throws (`MergeStepsExact` characterises it) |
| Handlers.MergeOutcome | script.js:38-83 | reply and new state of a merge: 400 with nothing changed for fewer than two uploads, 500 after a throw, otherwise the result written, `results` created and one timer set (`MergeSucceeds`, `MergeStopsAtFirstFailure`) |
| Handlers.PagesOf | script.js:47-50 | one page list per upload |
| Handlers.MergeStepsExact | script.js:47-55 | the merge loop completes iff the uploads are distinct, loadable files; then it holds their pages in upload order and every upload is deleted |
| Handlers.MergeStopped | script.js:47-55 | once a read or load throws, the remaining uploads are untouched |
| Handlers.MergeStopsAtFirstFailure | script.js:47-55 | a failing upload `k` leaves uploads before `k` deleted and the rest in place |
| Handlers.RepeatedUploadFails | script.js:47-54 | a path listed twice always makes the merge answer 500 |
| Handlers.MergeSucceeds | script.js:39-77 | for 2+ distinct loadable uploads: reply links to the result; the result downloads as every page in upload order, summing the page counts; the uploads are gone; one timer is added for the result; the `results` directory exists |
| Handlers.SplitWrites | script.js:108-120 | the split loop records one path per group |
| Handlers.SplitWritesName | script.js:114-115 | output `i` is named `split_<first>-<last>_<clock(i)>.pdf` after group `i` |
| Handlers.LabelChars | script.js:114 | a `first-last` label has no `_` and no `/`, and starts with a digit |
| Handlers.SplitNamePieces | script.js:114 | an output name cut at `_` gives back `split`, its label and its stamp |
| Handlers.SameNameSameRange | script.js:114-115 | two outputs under one path come from the same range |
| Handlers.ZipIsNotAnOutput | script.js:114-126 | the zip's path never equals an output's path |
| Handlers.SplitWritesKeeps | script.js:108-120 | the split loop deletes no file |
| Handlers.SplitWritesFrame | script.js:108-120 | files the loop does not name keep their content |
| Handlers.SplitWritesContent | script.js:108-120 | output `i` holds exactly group `i`'s pages, even when a later output reuses its name |
| Handlers.SplitOutcome | script.js:86-150 | reply and new state of a split: 400 with nothing changed without a file, 500 with nothing changed when the upload cannot be loaded, 400 with the upload deleted for an invalid expression, 500 with nothing changed when `results` is missing, otherwise `SplitDone` |
| Handlers.SplitDone | script.js:105-144 | one output per group written under its name, the upload deleted, the zip of the outputs written, one timer for all of them, the zip's link as reply (`SplitDoneLayout`, `SplitDoneOutputs`) |
| Handlers.SplitRejectsExactly | script.js:99-103 | for a loadable upload, "Invalid page range" is answered iff the expression does not parse, and the upload is then deleted |
| Handlers.SplitSucceeds | script.js:99-120 | a parsed expression yields one output per comma token and goes on with `SplitDone` when `results` exists; otherwise the first write throws: 500, and nothing changes |
| Handlers.MergeKeepsResults | script.js:47-72 | a merge of uploads outside `results/` deletes no file under `results/`, so earlier results stay downloadable |
| Handlers.SplitKeepsResults | script.js:91-144 | a split of an upload outside `results/` deletes no file under `results/`, whatever its reply |
| Handlers.SplitNeedsResultsDir | script.js:61-117 | a split succeeds only when `results` exists, never creates it, and without it leaves every file as it was |
| Handlers.SplitDoneLayout | script.js:118-144 | the reply links to the zip (even for one range); the upload is deleted; the zip lists the outputs in range order; one timer covers the outputs and the zip |
| Handlers.SplitDoneOutputs | script.js:108-127 | output `i` is named after range `i`, its label parses back to that range, and after the split it holds exactly that range's pages |
| Handlers.Resolve | script.js:154-156 | the file under `results/` plus the name, if it exists |
| Handlers.DownloadOutcome | script.js:153-165 | the download reply: that file as an attachment, or 404 "File not found" |
| Handlers.Fire | script.js:130-139 | a timer firing deletes each of its paths that exists and stops being pending (`FireDeletes`) |
| Handlers.FireDeletes | script.js:68-72 | a firing timer deletes exactly its own paths, present or not, and leaves the rest |
| Handlers.KeptUntilExpired | script.js:130-139 | a file stays, with the same content, through any timers that do not name it |
| Handlers.ExpiryNeverCreates | script.js:132-137 | timers only delete: a file that is gone stays gone, so a second timer for it is harmless |
| Handlers.MergedResultExpires | script.js:65-72 | once a merge result's timer fires, its download answers 404 |
| Handlers.Server.Unlink | script.js:54 | `unlinkSync` removes one existing file |
| Handlers.Server.Merge | script.js:38-83 | the handler's reply and new state are `MergeOutcome` of the old state |
| Handlers.Server.Split | script.js:86-150 | the handler's reply and new state are `SplitOutcome` of the old state, including the 500 when `results` is missing |
| Handlers.Server.WriteOutputs | script.js:105-144 | writing the outputs, deleting the upload, writing the zip and setting the timer gives `SplitDone` |
| Handlers.Server.Download | script.js:153-165 | for a plain name (every name the service issues), the reply is the file under `results/` or a 404, and nothing changes |
| Handlers.Server.Expire | script.js:130-139 | a timer firing is `Fire`: delete each of its paths if present, then drop the timer |

## Behaviour a reader might not expect

The model follows the code in each of these cases:

- **Merge with fewer than two files.** The uploads are not removed: the
  handler returns 400 before touching them (script.js:43-45), and
  `MergeOutcome` leaves the disk unchanged.
- **Split with one range.** The reply is still a zip, never the single file
  (script.js:125-144); `SplitDoneLayout` states this.
- **Exception paths.** Not every exit path deletes the uploads. A read or
  load failure leaves the split upload on disk (script.js:95-96, 146-149),
  and leaves the merge uploads not yet reached (`MergeStopsAtFirstFailure`).
- **Split before any merge.** Only the merge handler creates the `results`
  directory (script.js:61-63). A split on a server where it does not exist
  yet throws at its first `writeFileSync` (script.js:117): the reply is 500
  and the upload stays on disk. The store records whether the directory
  exists, and `SplitNeedsResultsDir` and `SplitSucceeds` state this.
- **Artifact names.** Names come from `Date.now()` readings, which may
  repeat, and a later write then overwrites an earlier one. Within one split
  this is harmless: an output name carries its range, so two outputs under
  one path hold the same pages (`SameNameSameRange`), and the zip's name
  never equals an output's (`ZipIsNotAnOutput`). A split output may still
  overwrite an older result of another request.
- **Download names.** The download route joins `results` with the route
  parameter (script.js:154). Express decodes `%2F` in a parameter, and
  `path.join` resolves `..`, so a request such as `/download/..%2Fscript.js`
  reaches a file outside `results/`. Every name the service issues is plain
  (`IssuedNamesPlain`), and for plain names the model's lookup is exact.

## Left out

- HTTP plumbing is not modelled: Express routing, static files, body parsing
  and multer's storage. Replies are the `Response` datatype, with the
  source's status codes and messages.
- Uploads arrive as a list of paths. Multer's naming (`Date.now()` plus
  extension, script.js:20-22) and its 10-file limit are not modelled. Two
  uploads stored under one name appear as a repeated path
  (`RepeatedUploadFails`).
- The PDF codec is not modelled. A loadable file is `Pdf(pages)`, with pages
  as opaque values. Failures of `save` and `copyPages`, and
  failures of `writeFileSync` other than a missing `results` directory, are
  not modelled.
- AdmZip's archive format is not modelled. A zip is the ordered list of the
  paths added to it.
- `pdf-parse` is imported but unused, and is not part of this model.
- Timer delays (3,600,000 ms) are not modelled. A pending timer fires when
  `Expire(k)` is called, in any order. The clock is a parameter, and
  readings are not assumed distinct.
- Concurrent requests and async interleaving are not modelled. Each handler
  runs to completion as one step.
- Handlers.DownloadOutcome: `path.join` normalisation is not modelled.
  `ResultPath` is `"results/" + name`, which is what `path.join` gives for a
  plain name. For a name holding `/` or `..` the source may serve a file
  outside `results/` (see "Download names" above), where the model looks up
  the literal path and answers 404. `Server.Download` shares this limit.
- Handlers.Resolve: looks up `results/` followed by the literal name, so for
  a name holding `/` or `..` it does not find the file `path.join` would
  reach.
- Uploads are assumed to lie outside `results/` wherever a lemma needs it.
  Creation of the `uploads` directory by multer is not modelled.
- `res.download` errors are not modelled (script.js:157-161).
- A `pages` field that is not a string is not modelled: the field is
  `Option<string>`.
- Doubles are not modelled: `parseInt` returns an unbounded integer. Values
  within any page count are exact, and larger values are rejected either
  way. Template rendering is modelled as plain decimal digits, which is what
  JavaScript prints below 10^21; page numbers and `Date.now()` readings stay
  far below that.
- Assembly.SplitLabel requires non-negative ends. Every parsed group meets
  this, so the `NaN` labels JavaScript would print for a negative or missing
  end are not modelled.
