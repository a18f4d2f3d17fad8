# docx-to-pdf-by-render: a verified model of its decision logic

This project models, in Dafny, the logic of the DOCX-to-PDF service that
decides things rather than moving bytes. It covers these pieces:

- **Image cache** (`lib/convert-api/docx-to-pdf/document-helper.ts`):
  - the memory cache, an insertion-ordered map used as an approximate LRU;
  - the disk cache;
  - the `getTransformed` lookup, which tries a fresh entry, then a pending download, then disk, then a fetch;
  - the retry loop with exponential backoff and `Retry-After`;
  - the link collector that walks the template's JSON data;
  - the per-host-bounded prefetch picker;
  - the `getImage` URL check;
  - the decision part of the image transform.
- **Media recompression loop** (`compress-docx.ts`): runs over the zip entries of a document.
- **HTML scrubber** (`html-helper.ts`): the JSON-tree walk.
- **Blob key slugger** (`blob.ts`).
- **Bearer-token guard** (`api-guard.ts`): includes the UTF-8 buffers it compares.
- **FIFO request semaphore** (`concurrency.ts`).
- **LibreOffice helpers** (`libre-office.ts`): the process-tree closure used on Windows and the pick of the produced PDF.

Each source file is modelled in its own form:

| source | Dafny form |
|---|---|
| pure string code | functions with lemmas |
| memory cache, prefetch counters, semaphore | classes whose methods change fields |
| zip entries | an array rewritten in place |
| retry loop, process-tree walk, link walk | methods with loops, each proved equal to a specification function |

Outside calls are parameters. These are the image library's probe and encoder, the zip reader and writer, the clock, the random jitter, `new URL(...).host`, Unicode decomposition, and the outcome of each HTTP request.

Modules and files:

| module | file | models |
|---|---|---|
| `Wrappers` | wrappers.dfy | `Option`, `Result`, `Distinct` |
| `Text` | text.dfy | JavaScript white space, ASCII case folding, `trim`, prefix/suffix predicates |
| `Json` | json.dfy | JSON values, JavaScript truthiness, property lookup |
| `Utf8` | utf8.dfy | `Buffer.from(string)` and `buf.toString()` |
| `BlobKey` | blob_key.dfy | lib/utils/blob.ts |
| `ApiGuard` | api_guard.dfy | lib/utils/api-guard.ts |
| `Concurrency` | semaphore.dfy | lib/utils/concurrency.ts |
| `LibreOffice` | libre_office.dfy | lib/convert-api/libre-office.ts |
| `HtmlHelper` | html_helper.dfy | lib/convert-api/docx-to-pdf/html-helper.ts |
| `LinkCollector` | link_collector.dfy | `collectImageLinks` and `getImage` |
| `FetchRetry` | fetch_retry.dfy | `computeBackoff` and `fetchRaw` |
| `ImageTransform` | image_transform.dfy | `transformImageIfNeeded` |
| `ImageCache` | image_cache.dfy | `memCache`, the disk cache and `getTransformed` |
| `Prefetch` | prefetch.dfy | the `tryStart` picker of `prefetchTransformed` |
| `CompressDocx` | compress_docx.dfy | `compressDocxBuffer` |

`getTransformed` installs its pending entry only after the disk read has been awaited (document-helper.ts:252-267). Two concurrent misses for one URL can therefore both fetch. The model keeps lookup, disk read and pending installation as separate steps, and it makes no "one download per URL" claim.

## Model

| member | source | states |
|---|---|---|
| Text.IndexOf | lib/convert-api/docx-to-pdf/html-helper.ts:6 | the position of the first occurrence of the character (the first `>` after a `<` here, the decimal point in `Number`), with none before it; none if and only if the character does not occur |
| Text.Trim | lib/utils/api-guard.ts:19 | `trim()`: the result neither starts nor ends with white space, is a contiguous piece of the input, and is the input itself when it has no white space |
| Text.TrimExact | lib/utils/api-guard.ts:19 | `trim()` removes only white space: everything before and after the result in the input is white space |
| Text.TrimAfterSpace | lib/utils/api-guard.ts:39 | trimming after dropping leading white space gives the same result as trimming the whole string |
| Utf8.EncodeChar | lib/utils/api-guard.ts:21 | one character becomes 1 to 4 bytes, and the lead byte announces the length |
| Utf8.DecodeFirstOfEncodeChar | lib/utils/api-guard.ts:73 | decoding the front of a character's encoding gives back that character and its byte length |
| Utf8.DecodeEncode | lib/utils/api-guard.ts:21 | `Buffer.from(t).toString()` gives back `t` for every string |
| Utf8.EncodeInjective | lib/utils/api-guard.ts:26-28 | different strings have different UTF-8 buffers, so comparing buffers compares strings |
| ApiGuard.Split | lib/utils/api-guard.ts:18 | `split(/[\s,]+/)` yields at least one piece, and no piece contains a separator |
| ApiGuard.TrimAll | lib/utils/api-guard.ts:19 | every piece is trimmed and the count is kept |
| ApiGuard.NonEmpty | lib/utils/api-guard.ts:20 | `filter(Boolean)`: a string is kept if and only if it is a non-empty piece of the input; nothing changes when no piece is empty |
| ApiGuard.NonEmptyAppend | lib/utils/api-guard.ts:20 | the filter keeps the order: filtering a concatenation filters each part |
| ApiGuard.LoadTokens | lib/utils/api-guard.ts:15-22 | every configured token is non-empty and free of white space and commas; with neither variable set there are no tokens |
| ApiGuard.TrimSeparatorFree | lib/utils/api-guard.ts:18-19 | the pieces of the split have no white space, so `trim` leaves them alone |
| ApiGuard.LoadTokensFallback | lib/utils/api-guard.ts:16 | `API_TOKEN` is read only when `API_TOKENS` is unset or empty; otherwise `API_TOKENS` alone decides |
| ApiGuard.LoadTokensPieces | lib/utils/api-guard.ts:15-22 | a string is a token if and only if it is a non-empty piece of the split of the variable that is read |
| ApiGuard.Configured | lib/utils/api-guard.ts:21 | each stored buffer decodes back to its token |
| ApiGuard.SplitOfPrefix | lib/utils/api-guard.ts:18 | a separator-free prefix joins the first piece of what follows it |
| ApiGuard.SplitAfterRun | lib/utils/api-guard.ts:18 | a leading run of white space and commas before a non-separator yields an empty first piece and then the pieces of the rest |
| ApiGuard.SplitJoin | lib/utils/api-guard.ts:17-18 | splitting non-empty separator-free tokens joined by any non-empty runs of white space and commas gives back exactly those tokens |
| ApiGuard.SplitJoinStep | lib/utils/api-guard.ts:17-18 | if splitting a joined list gives it back, the same holds with one more token and separator run in front |
| ApiGuard.SplitFirst | lib/utils/api-guard.ts:18 | a non-empty first piece starts at the first character of the string |
| ApiGuard.LoadJoined | lib/utils/api-guard.ts:15-22 | `API_TOKENS` holding tokens separated by any runs of white space and commas loads exactly those tokens, in order |
| ApiGuard.TimingSafeEqualStr | lib/utils/api-guard.ts:25-34 | true if and only if the two strings are equal; different byte lengths give false |
| ApiGuard.MatchesConfigured | lib/utils/api-guard.ts:73 | a token matches one of the configured buffers if and only if it is one of the configured strings |
| ApiGuard.BearerCredential | lib/utils/api-guard.ts:39 | the credential is trimmed and is a contiguous piece of the header after `bearer` |
| ApiGuard.BearerOf | lib/utils/api-guard.ts:38-39 | `bearer` in any case, then white space, then `rest` matches the bearer pattern, and the credential is `rest` trimmed |
| ApiGuard.ExtractToken | lib/utils/api-guard.ts:36-50 | priority order: a bearer header, else a non-empty `x-api-key` header (trimmed), else query `token`, else query `x-api-key`, else none; a non-bearer `Authorization` header falls through |
| ApiGuard.RequireAuth | lib/utils/api-guard.ts:60-81 | with no configured token every request passes; a missing or empty token is rejected once tokens exist; a pass with tokens means the token matched one; a non-empty matching token passes |
| ApiGuard.RequireAuthDecision | lib/utils/api-guard.ts:60-81 | a request passes if and only if no token is configured, or the extracted token is non-empty and equal to a configured one |
| BlobKey.OrElse | lib/utils/blob.ts:2 | JavaScript `a \|\| b`: a missing or empty first string falls through to the second |
| BlobKey.BaseName | lib/utils/blob.ts:2 | `rawName \|\| fallback \|\| "output"`: the first non-empty of the two names, else `output` |
| BlobKey.StripExtension | lib/utils/blob.ts:2 | removes exactly one trailing `.ext` (a dot and one or more non-dot characters); the result is unchanged if and only if there is no such suffix |
| BlobKey.StripAddedExtension | lib/utils/blob.ts:2 | adding an extension and stripping it gives back the name |
| BlobKey.StripMarks | lib/utils/blob.ts:5 | no combining mark (U+0300 to U+036F) remains, the result is no longer than the input, and a string without any mark is unchanged |
| BlobKey.StripMarksFrom | lib/utils/blob.ts:5 | every character left is a hyphen or a character of the input |
| BlobKey.StripMarksAppend | lib/utils/blob.ts:5 | removing marks works character by character: it distributes over concatenation |
| BlobKey.StripMarksChar | lib/utils/blob.ts:5 | a single mark disappears and any other single character survives; with `StripMarksAppend` this fixes the result for every string |
| BlobKey.HyphenateRuns | lib/utils/blob.ts:6 | only `[A-Za-z0-9._-]` remains, the result is no longer than the input, and a string made only of these is unchanged |
| BlobKey.HyphenateFrom | lib/utils/blob.ts:6 | every character of the result is a hyphen or comes from the input |
| BlobKey.HyphenateDisallowed | lib/utils/blob.ts:6 | a whole run of disallowed characters becomes exactly one hyphen |
| BlobKey.HyphenateAppend | lib/utils/blob.ts:6 | where the cut is not inside a disallowed run, hyphenating a concatenation hyphenates each part |
| BlobKey.CollapseHyphens | lib/utils/blob.ts:7 | no `--` remains, the result is no longer than the input, a non-empty input keeps its first character, the slug characters are kept, and a string without `--` is unchanged |
| BlobKey.CollapseFrom | lib/utils/blob.ts:7 | every character after the collapse is a hyphen or a character of the input |
| BlobKey.CollapseRun | lib/utils/blob.ts:7 | a whole run of hyphens becomes exactly one hyphen |
| BlobKey.CollapseAppend | lib/utils/blob.ts:7 | where the cut is not inside a run of hyphens, collapsing a concatenation collapses each part |
| BlobKey.DropFront | lib/utils/blob.ts:8 | `^[-_.]+` removed: a suffix of the input, everything removed is `-`, `_` or `.`, the result does not start with one, and the input is unchanged when it does not start with one; the character set and the no-`--` property are kept |
| BlobKey.DropBack | lib/utils/blob.ts:8 | `[-_.]+$` removed: a prefix of the input, everything removed is `-`, `_` or `.`, the result does not end with one, and the input is unchanged when it does not end with one; the character set and the no-`--` property are kept |
| BlobKey.TrimEdges | lib/utils/blob.ts:8 | the result neither starts nor ends with `-`, `_` or `.`, keeps the character set and the no-`--` property, and is the input itself when neither end is such a character |
| BlobKey.TrimEdgesExact | lib/utils/blob.ts:8 | the result is a contiguous piece of the input, and only `-`, `_` and `.` stand before and after it |
| BlobKey.TrimEdgesFront | lib/utils/blob.ts:8 | a letter or digit after a run of `[-_.]` becomes the first character |
| BlobKey.Truncate | lib/utils/blob.ts:9 | `slice(0, 120)`: a prefix of the input, exactly 120 characters long when the input is longer, the input itself otherwise |
| BlobKey.Slug | lib/utils/blob.ts:4-9 | the slug has 1 to 120 characters, all from `[A-Za-z0-9._-]`, no `--`, and does not start with `-`, `_` or `.`; it is `file` or made of hyphens and characters of the decomposed name |
| BlobKey.SlugWithoutAlnum | lib/utils/blob.ts:4-9 | a name with no ASCII letter or digit after decomposition gets the fallback slug `file` |
| BlobKey.SlugStartsWithFirstAlnum | lib/utils/blob.ts:4-9 | the slug begins with the first ASCII letter or digit of the decomposed name |
| BlobKey.SlugOfSlug | lib/utils/blob.ts:4-9 | a name that already has the slug shape, does not end in `[-_.]` and is unchanged by decomposition is its own slug |
| BlobKey.ToPdfKey | lib/utils/blob.ts:1-12 | the key is the prefix (`pdf/` when `BLOB_PREFIX` is unset or empty), then a slug, then `.pdf` |
| BlobKey.ToPdfKeyFallback | lib/utils/blob.ts:2 | a missing or empty `rawName` gives the key of `fallback` |
| BlobKey.ToPdfKeyOfCleanName | lib/utils/blob.ts:1-12 | with `BLOB_PREFIX` unset, a clean ASCII name with an extension gets the key `pdf/<name>.pdf` |
| Concurrency.LimitOf | lib/utils/concurrency.ts:7 | `Math.max(1, Number(env \|\| 6))`: an unset setting gives the default, a value below 1 gives 1, any other value is kept |
| Concurrency.Semaphore.constructor | lib/utils/concurrency.ts:5-7 | starts with nothing in flight and no waiters; `LIMIT` is `LimitOf` of `MAX_INFLIGHT` with default 6, so at least 1 |
| Concurrency.Semaphore.Acquire | lib/utils/concurrency.ts:16-23 | below the limit it enters and increments `inFlight`; otherwise it appends its waiter at the back and leaves `inFlight` alone |
| Concurrency.Semaphore.Release | lib/utils/concurrency.ts:28-36 | `inFlight` becomes max(0, inFlight - 1); the oldest waiter is woken and handed to `setImmediate`; the rest of the queue keeps its order |
| Concurrency.Semaphore.RunImmediate | lib/utils/concurrency.ts:24-33 | the oldest scheduled waiter resumes and increments `inFlight` |
| Concurrency.Semaphore.Snapshot | lib/utils/concurrency.ts:39-41 | reports `inFlight`, `LIMIT` and the queue length, and changes nothing |
| Concurrency.OverLimitTrace | lib/utils/concurrency.ts:16-36 | acquire, acquire, release, acquire, resume with limit 1 ends with 2 in flight |
| Concurrency.HandoffSemaphore.constructor | lib/utils/concurrency.ts:5-7 | the corrected semaphore starts empty and within its limit |
| Concurrency.HandoffSemaphore.Acquire | lib/utils/concurrency.ts:16-23 | the same fast and slow paths, and it keeps `inFlight` ≤ limit |
| Concurrency.HandoffSemaphore.Release | lib/utils/concurrency.ts:28-36 | the slot passes to the oldest waiter instead of being freed; `inFlight` ≤ limit is kept |
| Concurrency.HandoffSemaphore.RunImmediate | lib/utils/concurrency.ts:24-33 | a resumed waiter already holds its slot; `inFlight` ≤ limit is kept |
| Concurrency.HandoffTrace | lib/utils/concurrency.ts:16-36 | the same interleaving with slot hand-off ends within the limit |
| LibreOffice.ChildrenOf | lib/convert-api/libre-office.ts:42-47 | the children of a pid are exactly the rows naming it as parent |
| LibreOffice.Universe | lib/convert-api/libre-office.ts:42-53 | every pid the traversal can meet is the root or a pid of the table |
| LibreOffice.BuildChildren | lib/convert-api/libre-office.ts:42-47 | the map built row by row gives each parent its children in row order |
| LibreOffice.ChildrenOfSnoc | lib/convert-api/libre-office.ts:43-47 | one more table row adds its pid to its parent's children and changes no other pid's children |
| LibreOffice.PushNewChildren | lib/convert-api/libre-office.ts:52 | each child not yet seen is added once and pushed; everything added is reachable |
| LibreOffice.DescendantsFromRows | lib/convert-api/libre-office.ts:48-54 | the root comes first, with no duplicates; the result is closed under children, every member is reachable from the root, and the loop ends even on cyclic tables |
| LibreOffice.ClosedStep | lib/convert-api/libre-office.ts:50-53 | after a pop and a push of new children, every member off the stack has all its children among the members |
| LibreOffice.Progress | lib/convert-api/libre-office.ts:50-53 | each iteration either adds a member, leaving fewer table pids unseen, or adds none; this is the measure that makes the loop end |
| LibreOffice.PopAndPush | lib/convert-api/libre-office.ts:50-53 | one loop iteration keeps the traversal invariant and either leaves fewer pids unseen or keeps the members and shortens the stack |
| LibreOffice.GetDescendantPids | lib/convert-api/libre-office.ts:20-59 | uses the `pidtree` list when it is non-empty, else the Windows table closure, else exactly `[rootPid]` |
| LibreOffice.PdfNameIgnoresCase | lib/convert-api/libre-office.ts:135 | a name counts as a PDF if and only if its lower-cased form ends in `.pdf` |
| LibreOffice.PickPdf | lib/convert-api/libre-office.ts:134-136 | the first name whose lower-cased form ends in `.pdf`; an error if and only if there is none |
| Json.Get | lib/convert-api/docx-to-pdf/document-helper.ts:293 | a property is found if and only if the object has that key, and the value found is one of its members |
| Json.Keys | lib/convert-api/docx-to-pdf/html-helper.ts:16 | `Object.keys` lists every member's key, in order |
| HtmlHelper.BrTagLength | lib/convert-api/docx-to-pdf/html-helper.ts:5 | a match of `<br\s*\/?>` starts with `<`, ends with `>` and has at least 4 characters |
| HtmlHelper.BrTagLengthOfTag | lib/convert-api/docx-to-pdf/html-helper.ts:5 | every `<br>` form (any case, optional white space, optional slash) at the front is matched in full |
| HtmlHelper.BrTagLengthIsTag | lib/convert-api/docx-to-pdf/html-helper.ts:5 | whatever is matched at the front is such a `<br>` form |
| HtmlHelper.ReplaceBr | lib/convert-api/docx-to-pdf/html-helper.ts:5 | replacing line-break tags never lengthens the text |
| HtmlHelper.ReplaceBrOfTag | lib/convert-api/docx-to-pdf/html-helper.ts:5 | a `<br>` form at the front becomes one newline |
| HtmlHelper.ReplaceBrOfPlain | lib/convert-api/docx-to-pdf/html-helper.ts:5 | text without `<` passes through unchanged |
| HtmlHelper.StripTags | lib/convert-api/docx-to-pdf/html-helper.ts:6 | removing tags never lengthens the text |
| HtmlHelper.StripTagsOfPlain | lib/convert-api/docx-to-pdf/html-helper.ts:6 | text without `<` passes through unchanged |
| HtmlHelper.StripTagsOfTag | lib/convert-api/docx-to-pdf/html-helper.ts:6 | a `<`, then anything without `>`, then `>` is removed whole |
| HtmlHelper.StripTagsClean | lib/convert-api/docx-to-pdf/html-helper.ts:3-6 | after `replace(/<[^>]*>/g, "")`, `hasHtml` is false |
| HtmlHelper.StripTagsOfClean | lib/convert-api/docx-to-pdf/html-helper.ts:3-6 | text for which `hasHtml` is false is left unchanged |
| HtmlHelper.StripTagsShrinks | lib/convert-api/docx-to-pdf/html-helper.ts:3-6 | text for which `hasHtml` is true gets strictly shorter |
| HtmlHelper.StripTagsChanges | lib/convert-api/docx-to-pdf/html-helper.ts:3-6 | `hasHtml(s)` holds if and only if stripping tags changes `s` |
| HtmlHelper.HtmlToText | lib/convert-api/docx-to-pdf/html-helper.ts:3-6 | `htmlToText` output never has HTML and is never longer than its input |
| HtmlHelper.HtmlToTextOfPlain | lib/convert-api/docx-to-pdf/html-helper.ts:4-6 | text without `<` is returned unchanged |
| HtmlHelper.ScrubChild | lib/convert-api/docx-to-pdf/html-helper.ts:11-19 | a string child loses its HTML and is unchanged when it had none; other scalars are untouched; arrays keep their length and objects their keys |
| HtmlHelper.Scrub | lib/convert-api/docx-to-pdf/html-helper.ts:8-22 | a top-level scalar is returned unchanged; arrays keep their length and objects their keys |
| HtmlHelper.ScrubIsClean | lib/convert-api/docx-to-pdf/html-helper.ts:8-22 | after the walk, no string anywhere in the tree has HTML |
| HtmlHelper.ScrubOfClean | lib/convert-api/docx-to-pdf/html-helper.ts:3-18 | a tree without HTML strings is left unchanged |
| HtmlHelper.ScrubIdempotent | lib/convert-api/docx-to-pdf/html-helper.ts:2-26 | scrubbing a second time changes nothing |
| HtmlHelper.ReplaceHtmlTags | lib/convert-api/docx-to-pdf/html-helper.ts:2-26 | the loop walk returns exactly the scrubbed tree |
| LinkCollector.HttpUrlIgnoresCase | lib/convert-api/docx-to-pdf/document-helper.ts:294 | `/^https?:\/\//i` holds if and only if the lower-cased string starts with `http://` or `https://` |
| LinkCollector.OwnLink | lib/convert-api/docx-to-pdf/document-helper.ts:293-294 | an object contributes at most its own `link` property, and only when that is a string matching `^https?://` (case-insensitive) |
| LinkCollector.Flatten | lib/convert-api/docx-to-pdf/document-helper.ts:289-295 | the concatenated visits hold exactly the links of the parts |
| LinkCollector.FlattenSnoc | lib/convert-api/docx-to-pdf/document-helper.ts:289-295 | visiting one more child appends its links |
| LinkCollector.VisitsAreLinks | lib/convert-api/docx-to-pdf/document-helper.ts:286-297 | the walk meets a string if and only if it is an http(s) URL held in some object's `link` property |
| LinkCollector.Add | lib/convert-api/docx-to-pdf/document-helper.ts:294 | `Set.add` keeps insertion order and no duplicates, and adds exactly the element |
| LinkCollector.AddAll | lib/convert-api/docx-to-pdf/document-helper.ts:285-294 | adding many keeps order and no duplicates, and holds exactly the old and new elements |
| LinkCollector.AddAllAppend | lib/convert-api/docx-to-pdf/document-helper.ts:289-295 | adding two lists in turn equals adding their concatenation |
| LinkCollector.AddAllStep | lib/convert-api/docx-to-pdf/document-helper.ts:289-295 | one loop step adds the next child's visits |
| LinkCollector.Walk | lib/convert-api/docx-to-pdf/document-helper.ts:286-297 | the recursive walk adds exactly the visits of the subtree, in order |
| LinkCollector.WalkItems | lib/convert-api/docx-to-pdf/document-helper.ts:288-290 | the array loop adds the visits of every item in order |
| LinkCollector.WalkMembers | lib/convert-api/docx-to-pdf/document-helper.ts:292-296 | the object loop adds the visits of every property value in order |
| LinkCollector.CollectImageLinks | lib/convert-api/docx-to-pdf/document-helper.ts:284-300 | no duplicates, and a string is returned if and only if it is an http(s) `link` property somewhere in the tree |
| LinkCollector.OwnProp | lib/convert-api/docx-to-pdf/document-helper.ts:411 | a property the payload sets is defined only on an object holding that key, and it is that member's value |
| LinkCollector.Prop | lib/convert-api/docx-to-pdf/document-helper.ts:411 | `tagObj?.link` on a string is the inherited `String.prototype.link` method; every other lookup is the own property |
| LinkCollector.OrElse | lib/convert-api/docx-to-pdf/document-helper.ts:411 | JavaScript `a \|\| b`: the left value when it is truthy, otherwise the right |
| LinkCollector.CheckedUrl | lib/convert-api/docx-to-pdf/document-helper.ts:411-413 | succeeds if and only if `link \|\| url \|\| tag` is a string matching `^https?://` (case-insensitive), and then with that string |
| LinkCollector.ImageTagUrl | lib/convert-api/docx-to-pdf/document-helper.ts:410-414 | as written: success only with an http(s) URL; every string tag is rejected; an object's truthy http(s) `link` wins; without a truthy `link`, an http(s) `url` is used; with both falsy the tag is rejected; any other kind of tag is rejected |
| LinkCollector.ImageTagUrlIntended | lib/convert-api/docx-to-pdf/document-helper.ts:410-414 | as the error message describes: a string tag is accepted if and only if it is an http(s) URL; objects and other kinds as in `ImageTagUrl` |
| LinkCollector.StringTagRejected | lib/convert-api/docx-to-pdf/document-helper.ts:411-413 | an http(s) string tag is rejected as written and accepted as intended |
| LinkCollector.IntendedAgreesOffStrings | lib/convert-api/docx-to-pdf/document-helper.ts:411-413 | the written and the intended check agree on every tag that is not a string |
| LinkCollector.LinkShadowsUrl | lib/convert-api/docx-to-pdf/document-helper.ts:411-413 | a non-empty `link` that is not http(s) is rejected even when `url` is valid, in both versions |
| FetchRetry.DigitsValue | lib/convert-api/docx-to-pdf/document-helper.ts:179 | a digit string is worth zero if and only if it is all zeros |
| FetchRetry.UnsignedDecimal | lib/convert-api/docx-to-pdf/document-helper.ts:179 | never negative; the empty string and a lone `.` are not numbers; a digit string is its decimal value |
| FetchRetry.UnsignedDecimalPoint | lib/convert-api/docx-to-pdf/document-helper.ts:179 | digits, a point and digits (not both empty) give whole part plus fraction |
| FetchRetry.UnsignedDecimalStray | lib/convert-api/docx-to-pdf/document-helper.ts:179 | a character other than a digit or a point makes the string not a number |
| FetchRetry.UnsignedDecimalTwoPoints | lib/convert-api/docx-to-pdf/document-helper.ts:179 | a second decimal point makes the string not a number |
| FetchRetry.NumberOf | lib/convert-api/docx-to-pdf/document-helper.ts:179 | `Number(s)` of a trimmed digit string is its decimal value |
| FetchRetry.RetryAfterSeconds | lib/convert-api/docx-to-pdf/document-helper.ts:178-180 | only a positive number of seconds counts |
| FetchRetry.ComputeBackoff | lib/convert-api/docx-to-pdf/document-helper.ts:177-185 | a positive `Retry-After` gives exactly seconds × 1000; otherwise min(8000, 400·2^(attempt-1) + jitter) |
| FetchRetry.BackoffBounds | lib/convert-api/docx-to-pdf/document-helper.ts:182-184 | without `Retry-After` the delay is between 400 and 8000 ms |
| FetchRetry.RetryAfterUncapped | lib/convert-api/docx-to-pdf/document-helper.ts:178-180 | a positive whole-seconds `Retry-After` waits exactly that many seconds, at any attempt; above 8 seconds that exceeds the 8000 ms cap |
| FetchRetry.BackoffMonotone | lib/convert-api/docx-to-pdf/document-helper.ts:182-184 | with the same jitter the delay never decreases with the attempt, and doubles below the cap |
| FetchRetry.RunFrom | lib/convert-api/docx-to-pdf/document-helper.ts:200-233 | from attempt k on, at least one more request and at most `attempts` in all, with one sleep per retry |
| FetchRetry.Run | lib/convert-api/docx-to-pdf/document-helper.ts:196-234 | no request when `attempts` < 1; otherwise 1 to `attempts` requests, with a sleep between consecutive ones |
| FetchRetry.RunFromProperties | lib/convert-api/docx-to-pdf/document-helper.ts:200-233 | from any attempt on: the request count is bounded, each earlier failure was retriable, one sleep per retry, and the result is the first success or the final error |
| FetchRetry.RunProperties | lib/convert-api/docx-to-pdf/document-helper.ts:196-234 | at most `attempts` requests; all but the last failed retriably (status 429 or 5xx, or `ECONNRESET`, `ETIMEDOUT`, `EAI_AGAIN`); the first success is returned; the last error is thrown; sleeps fall only between attempts, with their attempt numbers and `Retry-After` |
| FetchRetry.SleepsBounded | lib/convert-api/docx-to-pdf/document-helper.ts:225-230 | the j-th sleep follows attempt j+1 and, without `Retry-After`, waits 400 to 8000 ms |
| FetchRetry.NonRetriableFirst | lib/convert-api/docx-to-pdf/document-helper.ts:214-225 | a non-retriable first failure is thrown after one request and no sleep |
| FetchRetry.SuccessWithinBudget | lib/convert-api/docx-to-pdf/document-helper.ts:200-209 | a success after retriable failures, within the budget, is returned with the right request count |
| FetchRetry.FetchRaw | lib/convert-api/docx-to-pdf/document-helper.ts:196-234 | the loop's result, request count and sleeps are those of the retry specification |
| ImageTransform.TargetEncoding | lib/convert-api/docx-to-pdf/document-helper.ts:154-165 | an opaque PNG becomes webp or jpeg when conversion is on; jpeg/jpg stay jpeg, webp stays webp, an alpha PNG stays png, tiff becomes jpeg |
| ImageTransform.AlphaPngStaysPng | lib/convert-api/docx-to-pdf/document-helper.ts:155 | a PNG with alpha keeps its format |
| ImageTransform.TiffBecomesJpeg | lib/convert-api/docx-to-pdf/document-helper.ts:162-164 | TIFF is always encoded as JPEG |
| ImageTransform.TransformPlan | lib/convert-api/docx-to-pdf/document-helper.ts:138-152 | a pipeline runs if and only if resizing is on, the input is large enough, and the metadata shows both dimensions and a photo format; it resizes if and only if a dimension is above the maximum |
| ImageTransform.TransformImageIfNeeded | lib/convert-api/docx-to-pdf/document-helper.ts:137-169 | the result is never larger than the input: it is either the input or at most 97% of it; skipped inputs come back unchanged; an encoder failure rejects |
| ImageTransform.SmallInputUntouched | lib/convert-api/docx-to-pdf/document-helper.ts:138 | an input below 200000 bytes is returned unchanged |
| ImageTransform.OpaquePngToJpeg | lib/convert-api/docx-to-pdf/document-helper.ts:150-157 | with the defaults, a large opaque PNG within 1800×1800 is re-encoded as JPEG without resizing |
| ImageCache.Without | lib/convert-api/docx-to-pdf/document-helper.ts:106 | `delete(k)` removes just `k` from the key order and keeps it duplicate-free |
| ImageCache.SetOrder | lib/convert-api/docx-to-pdf/document-helper.ts:107 | `set(k, v)` keeps the keys distinct and adds exactly `k` |
| ImageCache.SetOrderPlacement | lib/convert-api/docx-to-pdf/document-helper.ts:107 | a present key keeps its place and a new key goes to the most recent end |
| ImageCache.Touched | lib/convert-api/docx-to-pdf/document-helper.ts:103-108 | `touchLRU` moves a present key to the most recent end, keeps the key set, and does nothing for an absent key |
| ImageCache.WithoutAppend | lib/convert-api/docx-to-pdf/document-helper.ts:106 | deleting from a concatenation deletes from each part |
| ImageCache.WithoutLength | lib/convert-api/docx-to-pdf/document-helper.ts:106 | deleting a present key shortens the order by one |
| ImageCache.TouchKeepsOthers | lib/convert-api/docx-to-pdf/document-helper.ts:103-108 | touching leaves every other key in the same relative order, and the size unchanged |
| ImageCache.WithoutFirst | lib/convert-api/docx-to-pdf/document-helper.ts:111-112 | deleting the oldest key drops the front of the order |
| ImageCache.Evicted | lib/convert-api/docx-to-pdf/document-helper.ts:109-115 | eviction keeps a suffix of the order, removes nothing once the size is within bound, and stops early only at an empty-string key |
| ImageCache.EvictedSize | lib/convert-api/docx-to-pdf/document-helper.ts:109-115 | without an empty key, exactly min(size, `CACHE_MAX`) newest keys remain |
| ImageCache.AfterExpiry | lib/convert-api/docx-to-pdf/document-helper.ts:240-250 | deleting an expired entry takes its key out of the order; every other key stays |
| ImageCache.ReadDiskCache | lib/convert-api/docx-to-pdf/document-helper.ts:117-126 | the stored bytes if and only if the file exists and is no older than the TTL |
| ImageCache.Cache.constructor | lib/convert-api/docx-to-pdf/document-helper.ts:40-41 | an empty memory cache over the given disk; `CACHE_MAX` is `IMG_CACHE_MAX_ENTRIES` or 2000 and the TTL is `IMG_DISK_CACHE_TTL_MS` or 600000 ms |
| ImageCache.Cache.Delete | lib/convert-api/docx-to-pdf/document-helper.ts:106 | removes the key from the map and the order |
| ImageCache.Cache.Set | lib/convert-api/docx-to-pdf/document-helper.ts:107 | updates the value, with a new key going last and an existing key keeping its place |
| ImageCache.Cache.Touch | lib/convert-api/docx-to-pdf/document-helper.ts:103-108 | the order becomes `Touched`; values are unchanged |
| ImageCache.Cache.EvictIfNeeded | lib/convert-api/docx-to-pdf/document-helper.ts:109-115 | the loop leaves the `Evicted` order, and surviving keys keep their values |
| ImageCache.Cache.LookupMemory | lib/convert-api/docx-to-pdf/document-helper.ts:240-250 | a fresh entry with data is a hit and is touched; a fresh pending entry is joined; an expired entry is deleted; a missing one is a miss; a miss happens exactly when no fresh entry has data or a promise, and then the order is `AfterExpiry` and every remaining entry is unchanged |
| ImageCache.Cache.InstallFromDisk | lib/convert-api/docx-to-pdf/document-helper.ts:252-258 | the disk data is installed with expiry now + TTL at the most recent end, then the cache is evicted |
| ImageCache.Cache.InstallPending | lib/convert-api/docx-to-pdf/document-helper.ts:260-268 | a pending entry is installed, then the cache is evicted |
| ImageCache.Cache.SettleSuccess | lib/convert-api/docx-to-pdf/document-helper.ts:271-274 | the entry becomes data with expiry from completion time, at the most recent end, without eviction |
| ImageCache.Cache.SettleFailure | lib/convert-api/docx-to-pdf/document-helper.ts:275-277 | the key is removed, so no failure is cached |
| ImageCache.Cache.WriteDiskCache | lib/convert-api/docx-to-pdf/document-helper.ts:127-132 | a successful write stores the bytes with their time; a failed one changes nothing |
| ImageCache.Cache.SettleDownload | lib/convert-api/docx-to-pdf/document-helper.ts:260-279 | the pending entry is installed and evicted, then a success replaces it with the data (expiry from completion) as the most recent key, giving order `Touched(SetOrder(Evicted(SetOrder(o, url), CACHE_MAX), url), url)`, and writes the disk; a failure gives order `Without(Evicted(SetOrder(o, url), CACHE_MAX), url)` with no entry for the URL and no disk change; every other surviving entry keeps its old value |
| ImageCache.Cache.FetchAndSettle | lib/convert-api/docx-to-pdf/document-helper.ts:260-279 | the request count is that of the retry specification; the result is served if and only if the fetch succeeds and the transform accepts it; the new order, entries and disk are those of `SettleDownload` with that outcome: a success is cached at the most recent end and written to disk when the write succeeds, a failure leaves no entry and no disk change, and every other surviving entry keeps its old value |
| ImageCache.Cache.GetTransformed | lib/convert-api/docx-to-pdf/document-helper.ts:239-279 | the outcome of each case: a fresh hit serves the memory bytes with no request and touches the key; a pending entry is joined with no request; on a miss with a fresh disk file, the disk bytes are served with no request and installed with expiry now + TTL, followed by eviction; on a miss without one, the outcome, the full new order (from the order after the expired entry is deleted) and the disk are as in `FetchAndSettle`; in every case each other surviving entry keeps its old value |
| Prefetch.Released | lib/convert-api/docx-to-pdf/document-helper.ts:344 | the host's count becomes one less, or 0 when it was missing or 0; every other host's count is unchanged |
| Prefetch.Bump | lib/convert-api/docx-to-pdf/document-helper.ts:338 | the host's count (0 when missing) goes up by one; every other host's count is unchanged |
| Prefetch.EarliestIsFirst | lib/convert-api/docx-to-pdf/document-helper.ts:323-332 | the scan's index is -1 if and only if every queued URL's host is at the cap; otherwise that URL's host is under the cap and every earlier one is at it |
| Prefetch.EarliestUnique | lib/convert-api/docx-to-pdf/document-helper.ts:323-332 | any index with those properties is the scan's index |
| Prefetch.FirstUnderCap | lib/convert-api/docx-to-pdf/document-helper.ts:323-332 | the loop returns the scan's index: the earliest queued URL whose host is under the cap, or -1 if and only if every host is at the cap |
| Prefetch.SpliceMultiset | lib/convert-api/docx-to-pdf/document-helper.ts:334 | `splice(idx, 1)` takes out exactly one element |
| Prefetch.StartRunStep | lib/convert-api/docx-to-pdf/document-helper.ts:319-348 | below the global cap, the chain of `tryStart` calls starts the earliest under-cap URL, takes it out of the queue, raises both counts and goes on from there |
| Prefetch.StartRunAllAtCap | lib/convert-api/docx-to-pdf/document-helper.ts:332 | when every queued host is at its cap the chain starts nothing and changes nothing |
| Prefetch.StartRunPermutes | lib/convert-api/docx-to-pdf/document-helper.ts:334 | the chain loses and duplicates no URL: the started URLs and the remaining queue make up the old queue |
| Prefetch.StartRunBounded | lib/convert-api/docx-to-pdf/document-helper.ts:319-348 | from below the global cap, the chain starts at most as many URLs as there are free slots |
| Prefetch.StartRunSaturates | lib/convert-api/docx-to-pdf/document-helper.ts:319-348 | the chain stops only when all slots are taken or every remaining queued host is at its cap |
| Prefetch.StartRunCounts | lib/convert-api/docx-to-pdf/document-helper.ts:337-338 | each host's count grows by the number of started URLs on that host |
| Prefetch.Prefetcher.constructor | lib/convert-api/docx-to-pdf/document-helper.ts:312-317 | the queue is the URLs and nothing runs; the global and per-host limits are `LimitOf` of their settings with default 10 |
| Prefetch.Prefetcher.Start | lib/convert-api/docx-to-pdf/document-helper.ts:334-338 | removes the picked URL, keeps the rest in order, adds one to the global count, and `Bump`s that host's count |
| Prefetch.Prefetcher.StartNext | lib/convert-api/docx-to-pdf/document-helper.ts:323-338 | starts nothing, changing nothing, exactly when every queued host is at its cap; otherwise it picks the earliest queued URL whose host is under the cap, closes the queue over it, adds one to the global count and one to that host's count; the chain from the old state is that URL followed by the chain from the new state |
| Prefetch.Prefetcher.TryStart | lib/convert-api/docx-to-pdf/document-helper.ts:319-349 | the URLs started (in order), the remaining queue and the host counts are exactly the chain `StartRun` from the old state: earliest under-cap URL first, again while slots remain and the queue is not empty; the running hosts grow by the started URLs' hosts and the global count by their number; when already saturated nothing starts and nothing changes; it ends saturated within both caps; no URL is lost or duplicated |
| Prefetch.Prefetcher.Complete | lib/convert-api/docx-to-pdf/document-helper.ts:343-344 | the global count goes down by one; the host's count becomes `Released`, `max(0, (get(h) \|\| 1) - 1)`, one less than before; the running hosts lose one `h`; the queue is unchanged |
| Prefetch.Prefetcher.Finish | lib/convert-api/docx-to-pdf/document-helper.ts:342-346 | `Complete`, then `tryStart`: the started URLs, queue and host counts are the chain from one fewer running download and the host's count `Released`; the running hosts lose one `h` and gain the started hosts; it ends saturated within both caps with no URL lost or duplicated |
| Prefetch.Prefetcher.StartAll | lib/convert-api/docx-to-pdf/document-helper.ts:352-353 | the starters' URLs, queue and host counts are the chain from the start state (the first call runs all of it, the later ones change nothing); the running hosts grow by the started hosts; it ends saturated within both caps with no URL lost or duplicated |
| CompressDocx.DefaultOptions | lib/convert-api/docx-to-pdf/compress-docx.ts:22-32 | the threshold is the configured number of MiB |
| CompressDocx.EntryPlan | lib/convert-api/docx-to-pdf/compress-docx.ts:43-101 | only eligible media photos get a pipeline; an entry that needs resizing always gets one, and without resizing only an opaque PNG does; resize and target format follow the rules |
| CompressDocx.Visited | lib/convert-api/docx-to-pdf/compress-docx.ts:43-108 | an entry throws if and only if its encoder fails, and is replaced if and only if the output is strictly below 97% |
| CompressDocx.Compressed | lib/convert-api/docx-to-pdf/compress-docx.ts:103-108 | name and kind are kept; the data is kept, or replaced by strictly smaller data for a media file |
| CompressDocx.CompressAll | lib/convert-api/docx-to-pdf/compress-docx.ts:43-109 | every entry, in order, as the loop leaves it |
| CompressDocx.ChangedAtMostEligible | lib/convert-api/docx-to-pdf/compress-docx.ts:41-111 | `changed` never exceeds the number of eligible `word/media/` entries |
| CompressDocx.BoundaryDiffersFromTransform | lib/convert-api/docx-to-pdf/compress-docx.ts:105 | every output replaced here is also kept by the fetch-time transform, and the two tests disagree exactly when the output is 97% of the input |
| CompressDocx.CountStep | lib/convert-api/docx-to-pdf/compress-docx.ts:107 | the counter grows by one exactly for a replaced entry |
| CompressDocx.VisitEntry | lib/convert-api/docx-to-pdf/compress-docx.ts:44-108 | the loop body with its early exits in source order agrees with `Visited` |
| CompressDocx.RewriteEntries | lib/convert-api/docx-to-pdf/compress-docx.ts:43-109 | rewrites the entries in place to `CompressAll` and counts the replacements, or reports that an encoder threw |
| CompressDocx.CompressDocxBuffer | lib/convert-api/docx-to-pdf/compress-docx.ts:20-112 | at or below a positive threshold returns the input with `changed = 0`; otherwise packs the rewritten entries with their count, or rejects if and only if some encoder throws; `changed` ≤ the number of eligible entries |

## Left out

- HTTP, DNS, keep-alive agents, `sleep` and timers are not modelled. Each request's outcome is an input, the random jitter is an input in [0, 149], and the clock readings are parameters.
- Request headers are not modelled. `fetchRaw`'s `token` and the `Authorization` header it builds do not change the retry logic.
- The image library is an input function: `probe` gives the metadata, and `encode` gives the output or fails. Its resize geometry and its encoders are not modelled. `getSize` is left out because it uses floating-point division and rounding.
- The `0.97` factors are stated exactly as 100·|out| ≤ 97·|in| (fetch-time transform) and 100·|out| < 97·|orig| (recompression). Floating-point rounding of `length * 0.97` is not modelled.
- The disk cache is a map from URL to (bytes, modification time). `sha1`, `cachePath`, directory creation and file errors other than "missing" are left out.
- The cache-size bound `size ≤ CACHE_MAX` is not an invariant of the cache, because the source re-inserts on success without evicting. Only eviction itself is specified.
- Concurrent `getTransformed` calls are not interleaved: each call runs its steps in order. The single-download coalescing claim is not made.
- The prefetch completion barrier (the 10 ms polling loop and `Promise.all`) is left out. The picker's step relation is modelled with `Finish` as the completion handler. The download's result does not matter to the picker.
- `new URL(u).host` is the function parameter `hostOf`. The `short` log helper and the URL parsing of request query strings are left out; the query values are inputs.
- FetchRetry.NumberOf: models `Number()` only for an optional sign, digits and one decimal point after trimming. Exponents, hexadecimal, `Infinity` and similar forms are treated as not-a-number.
- The numeric environment settings (`MAX_INFLIGHT`, `IMG_PREFETCH_CONCURRENCY`, `IMG_HOST_CONCURRENCY`, `IMG_CACHE_MAX_ENTRIES`, `IMG_DISK_CACHE_TTL_MS`, limits and sizes) are optional integers, with `None` for an unset or empty variable. A non-numeric or fractional setting (which gives `NaN` or a fraction) is not modelled.
- `String.prototype.normalize("NFKD")` is the function parameter `decompose`.
- `toLowerCase` is ASCII folding. This decides `endsWith(".pdf")`, because only ASCII letters lower-case to `p`, `d` and `f`.
- Strings are sequences of Unicode scalar values. Lone UTF-16 surrogates and `toString()` of malformed UTF-8 buffers are not modelled.
- HtmlHelper.ReplaceHtmlTags: the tree is a value. The in-place mutation and object identity of `walk` are modelled as returning the scrubbed tree.
- JSON objects are taken to have distinct keys. A property lookup returns the first member with the key.
- A JSON object's members are held in property-enumeration order. JavaScript's `Object.keys` lists integer-like keys first in ascending order, then the other keys in insertion order. Only the order of the links `collectImageLinks` returns depends on this; the set of links does not.
- CompressDocx.CompressDocxBuffer: on an encoder failure the promise rejects, and the partly rewritten entries are not described.
- CompressDocx.CompressDocxBuffer: the zip reader and writer are the function parameters `unzip` and `pack`.
- CompressDocx.CompressDocxBuffer: a non-numeric `COMPRESS_THRESHOLD_MB` (which makes the threshold `NaN`) is not modelled.
- The LibreOffice process handling is left out: spawning, `pidtree`, PowerShell and its JSON, and CPU and memory sampling. The `pidtree` result and the process table are inputs. A PowerShell reply holding a single object rather than a list is not modelled.
- The copy of `replaceHtmlTags` in document-helper.ts (lines 365-387) is not modelled separately. It is the same as html-helper.ts.
- `populateDataOnDocx` rendering (Docxtemplater, PizZip) is not part of this model. Its `getImage` URL check is modelled.
- Logging (`logQueue`, debug output) is left out.

## Findings

| source | as written | input that shows it | evidently intended | confidence | as-written member | corrected member |
|---|---|---|---|---|---|---|
| lib/utils/concurrency.ts:16-36 | `release` decrements `inFlight` and schedules the oldest waiter, and the waiter increments `inFlight` again when it resumes; in between, a fresh `acquire` sees a free slot and enters | limit 1: acquire (enters), acquire (waits), release, acquire (enters by the fast path), resume: 2 in flight | at most `LIMIT` requests in flight, with the released slot handed to the oldest waiter | medium, not executed | Concurrency.OverLimitTrace | Concurrency.HandoffTrace |
| lib/convert-api/docx-to-pdf/document-helper.ts:411 | `tagObj?.link \|\| tagObj?.url \|\| tagObj`: for a string tag, `tagObj?.link` is the inherited `String.prototype.link` method, which is truthy, so `url` is a function and the tag is rejected | the tag `"https://h/a.png"` | a string tag is used when it is an http(s) URL, as the error message says | high, not executed | LinkCollector.StringTagRejected | LinkCollector.ImageTagUrlIntended |
