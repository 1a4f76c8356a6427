# gulp-css-hashes, modelled in Dafny

gulp-css-hashes is a gulp plugin. It rewrites every `url(...)` reference in a stylesheet that points at an image or a font so that it carries a content digest (`url('img/a.png?v=<md5>')`). This project models the plugin's text pipeline, `replaceUrls` in `index.js`, and proves properties of that model. The pipeline works as follows:

- A global regular expression is run repeatedly with `exec`.
- The spaces are stripped from each URL.
- The URL is checked against `data:` and `#` prefixes and against an allow-list of extensions.
- Each accepted reference goes through `hashifyUrl`. That function keeps a memo table from URL to hashed URL, reads the file on a miss, and applies a missing-file policy.
- Once every result is in, each hashed URL replaces the first occurrence of its reference's text.

The project is laid out by concern:

- `wrappers.dfy`: `Option` and `Result`.
- `strings.dfy`: the JavaScript string operations the plugin uses:
  - `split(' ').join('')`;
  - `indexOf`;
  - `lastIndexOf`;
  - `toLowerCase` on ASCII letters;
  - `replace` with a string pattern.
- `scanner.dfy`: the pattern `(url(?:\(['|"]?)(.*?)(?:['|"]?\)))` and `exec` from `lastIndex`. It proves:
  - the shape of the groups;
  - that matches do not overlap and come in increasing order;
  - that every `url(` that can match falls inside some match.
- `options.dfy`: the option defaults, the extension test and the filter.
- `hashing.dfy`: `hashifyUrl` as a pure function of the memo table and an abstract file system. It also defines what makes a memo table sound, and a reference definition `Fresh` of what hashing yields from the file alone.
- `rewrite.dfy`: the whole `replaceUrls` pass as a function, `Rewrite.Rewrite`, and the lemmas about it:
  - the filter in both directions;
  - which files are opened;
  - which warnings are printed;
  - the error policy, including which error wins;
  - independence from a sound memo table;
  - the substitution fold.
- `plugin.dfy`: the plugin instance as a class `CssHashes` whose `cache` field is the memo table. `HashifyUrl` updates it in place. `ReplaceUrls` runs the imperative `exec` loop and the substitution loop, and each method is proved equal to the functional specification.
- `replacement.dfy`: where first-occurrence replacement lands, proved in general for the first match and for a stylesheet with one match, and on a concrete stylesheet in which it rewrites a copy inside an earlier data URI.
- `duplicates.dfy`: the whole pass on a stylesheet `url(u) url(u)` that names one asset twice, for any plain URL `u` that passes the filter: both copies are rewritten, the memo table answers the second, and in the sequential model the file is opened once.

The file system is the `FileSystem` datatype:

- `join` stands for `path.join`;
- `read(path)` stands for opening the file and digesting it with MD5. It yields `Digest(hex)`, `NotFound` (ENOENT) or `Failed(code)` (any other stream error).

The console warnings and the opened files are kept as logs (`log` and the ghost `openedUrls`), so that contracts can say when a file is read and when a warning is printed.

The model follows the code, including these points where its behaviour is easy to misread:

- A URL without a `.` has the whole lower-cased URL as its "extension" (`url.substr(0)`). So `url(png)` is hashed under the default list (`Options.DotlessUrlJudgedWhole`).
- `css.replace(originalUrl, hashedUrl)` replaces only the first occurrence, not every occurrence. For the first match that is the match itself (`Replacement.FirstMatchFirstOccurrence`). A later reference whose text also appears inside an earlier match can instead rewrite that earlier copy. In `url(data:x,url(a.png)) url(a.png)` the copy inside the rejected data URI is rewritten, and the real reference stays as it was (`Replacement.ReplaceReachesIntoEarlierMatch`). So a rejected reference is not always left alone in the output.
- Only the space character is stripped from URLs. Tabs and newlines stay.
- The `if (hashifiers)` test is always true, because an array is truthy. A stylesheet with no accepted reference therefore takes the `when.all([])` path. The result is the same: the input is returned unchanged (`Rewrite.RewriteNoReferences`).

## Model

| member | source | states |
|---|---|---|
| Strings.StripSpaces | index.js:46 | the URL is the text with every `' '` removed and contains no space; `split(' ').join('')` equals this (see below) |
| Strings.SplitJoinRemoves | index.js:46 | joining the parts of `split(c)` with the empty string is the text with every `c` removed |
| Strings.SplitJoinRoundTrip | index.js:46 | joining the parts of `split(c)` with `c` gives back the original text |
| Strings.Split | index.js:46 | `split(c)` gives at least one part, and no part contains `c` |
| Strings.Join | index.js:46 | the joined text starts with the first part; what joining the parts of `split` gives is stated by `SplitJoinRoundTrip` and `SplitJoinRemoves` |
| Strings.Without | index.js:46 | the result has no `c`, is no longer than the input, and is the input itself when it has no `c` |
| Strings.StripSpacesIdempotent | index.js:98 | stripping spaces a second time changes nothing |
| Strings.IndexOf | index.js:101 | `indexOf` gives -1 or the position of an occurrence, and there is no earlier occurrence |
| Strings.IndexOfZeroIffPrefix | index.js:101 | `indexOf(p) === 0` exactly when the text starts with `p` |
| Strings.LastIndexOf | index.js:99 | `lastIndexOf` gives the position of the last `c`, and -1 exactly when there is none |
| Strings.LastIndexOfIs | index.js:99 | a position holding `c` with no `c` after it is what `lastIndexOf` reports |
| Strings.Lower | index.js:99 | `toLowerCase` keeps the length and lower-cases each character |
| Strings.LowerKeepsLastDot | index.js:99 | lower-casing does not move the last `.` |
| Strings.LowerSuffix | index.js:99 | lower-casing the text after a position is taking the text after that position of the lower-cased URL |
| Strings.LowerIdempotent | index.js:99 | lower-casing twice is lower-casing once |
| Strings.ReplaceFirst | index.js:110 | `replace` with a string pattern: with no occurrence the text is unchanged; otherwise the text before the first occurrence and after it are kept and the replacement stands in its place |
| Scanner.FindClose | index.js:23 | the lazy body stops at the first `)` and fails at a line terminator |
| Scanner.FindCloseFinds | index.js:23 | the first `)` that no line terminator precedes is the one the body stops at |
| Scanner.FindCloseNone | index.js:23 | when the body finds no `)`, every later `)` lies beyond a line terminator |
| Scanner.MatchAt | index.js:23 | a match tried at position `i` starts at `i` and lies within the text |
| Scanner.MatchAtIff | index.js:23 | there is a match at `i` exactly when `url(` starts at `i` and is closed by a `)` with no `)` or line terminator before it |
| Scanner.CopyCloses | index.js:23 | a copy of a match's group 1 anywhere in the text is itself closed by its first `)`, so the pattern matches there too |
| Scanner.MatchAtWellFormed | index.js:23 | every match has the shape of the pattern: at most one leading and one trailing quote from `['|"]`, group 1 closed by its first `)` |
| Scanner.WellFormedShape | index.js:23 | group 1 is `url(`, a quote or nothing, group 2, a quote or nothing, and `)` |
| Scanner.MatchShape | index.js:23 | group 1 of a match is `url(` + leading quote + group 2 + trailing quote + `)`, each quote at most one character of `['|"]` |
| Scanner.MatchBody | index.js:23 | group 2 contains no `)` and no line terminator |
| Scanner.MatchPrefersQuotes | index.js:23 | a quote next to `url(` is always taken as the leading quote, and a quote before `)` is left out of group 2 whenever the body is not empty |
| Scanner.Exec | index.js:97 | `exec` from `lastIndex` finds the match at the smallest position at or after it, and there is no match in between |
| Scanner.Scan | index.js:97 | the `while (exec)` loop yields matches in the text, each starting at or after the previous one's end |
| Scanner.ScanSound | index.js:97 | every scanned match is the pattern's match at its start and is well formed |
| Scanner.ScanOrdered | index.js:97 | of any two scanned matches, the earlier one ends before the later one starts |
| Scanner.ExecReaches | index.js:97 | when a match exists at or after `lastIndex`, `exec` finds one no later than it |
| Scanner.ScanComplete | index.js:97 | every position where the pattern matches lies inside some scanned match |
| Scanner.ScanAtUrl | index.js:23 | every scanned match starts at an occurrence of `url(` |
| Options.MakeConfig | index.js:19-35 | the default extension list is used when none is given (any given list, even an empty one, is kept), `www` when `assetsPath` is absent or empty, and missing files are allowed only when the option is true |
| Options.DefaultConfig | index.js:26-35 | with no options the list is png, gif, jpg, jpeg, svg, woff, woff2, otf, eot, ttf, the base is `www`, and missing files are not allowed |
| Options.Extension | index.js:99 | the extension has no `.`; it is the lower-cased text after the last `.`, or the whole lower-cased URL when there is no `.` |
| Options.Accepts | index.js:101 | the test of the scan loop; it has no contract of its own, and `AcceptsIff` states it in both directions in terms of prefixes |
| Options.AcceptsIff | index.js:101 | a URL is accepted exactly when it does not start with `data:`, does not start with `#`, and its extension is in the list |
| Options.DataUriRejected | index.js:101 | a URL starting with `data:` is rejected whatever the list |
| Options.FragmentRejected | index.js:101 | a URL starting with `#` is rejected whatever the list |
| Options.ExtensionIgnoresCase | index.js:99 | lower-casing the URL first does not change its extension |
| Options.UpperCaseExtensionAccepted | index.js:99-101 | `img/a.PNG` is accepted by the default list |
| Options.DotlessUrlJudgedWhole | index.js:99-101 | `png`, with no dot, is accepted by the default list |
| Hashing.Url | index.js:98 | the cache key and output URL has no space |
| Hashing.AssetPath | index.js:29 | the file read for a URL is the configured base joined with the URL by the abstract `join`; it has no contract of its own, and `Options.MakeConfig` states the base |
| Hashing.HashedUrl | index.js:79 | the hashed URL is `url('`, the URL, `?v=`, the hex digest and `')`, in that order |
| Hashing.MissingMessage | index.js:62 | the message is `File `, the URL, and ` is referenced in a stylesheet but does not exist` |
| Hashing.Hashify | index.js:44-85 | a hit is answered without opening a file; a miss opens the file of the URL; only a hashed result writes the cache, at the URL's key, and no other key is added or changed; a skipped or failed reference leaves the cache as it was; a warning is printed only for a missing file that is allowed; the original URL is group 1 |
| Hashing.HashifyKeepsCacheSound | index.js:51-81 | a memo table that holds only hashed URLs of existing files stays so |
| Hashing.HashifyIsFresh | index.js:51-55 | with a sound memo table, a cache hit returns exactly what reading the file would |
| Hashing.FreshFailsIffFatal | index.js:60-71 | hashing fails exactly when the file is missing and missing files are not allowed, or the read fails otherwise |
| Rewrite.RefOfShape | index.js:46-48 | the reference of a match carries that match; its group 1 is the matched text, which is `url(`, at most one quote, group 2, at most one quote and `)`; group 2 has no `)` |
| Rewrite.Filter | index.js:97-104 | the references kept are at most the matches, each built from its own match and passing the test |
| Rewrite.FilterFromMatches | index.js:97-104 | every kept reference comes from a scanned match |
| Rewrite.FilterKeepsAccepted | index.js:97-104 | every match that passes the test is kept |
| Rewrite.ReferencesFrom | index.js:97-104 | from `lastIndex` on, at most one reference per scanned match, each built from its own match |
| Rewrite.References | index.js:97-104 | at most one reference per scanned match; `ReferencesIff` and `ReferencesScanned` state which matches are kept |
| Rewrite.ReferencesFromStep | index.js:97-104 | one turn of the scan loop: no match ends the list; a match is pushed when accepted and the loop resumes at its end |
| Rewrite.ReferencesFromRejected | index.js:101 | a rejected match adds no reference |
| Rewrite.HashAllFromAccepted | index.js:101-102 | an accepted match is hashed before the references after it |
| Rewrite.Step | index.js:102 | one `hashifyUrl` call appends one result, opens a file exactly when the URL is not in the memo table, changes no cached entry, and prints at most one warning |
| Rewrite.HashAllCons | index.js:102 | hashing a list is hashing its head, then its tail with the updated memo table |
| Rewrite.HashAll | index.js:97-104 | one result per reference; the earlier results and log entries are kept; no cached entry changes |
| Rewrite.HashAllAfterLogs | index.js:97-104 | the logs a pass produces do not depend on the logs before it |
| Rewrite.StepSound | index.js:44-85 | with a sound memo table, one hashing step appends what reading the file yields, and adds the URL as a key only when the file has a digest |
| Rewrite.FreshAll | index.js:44-85 | the reference results, one per reference, each what reading its file yields |
| Rewrite.HashAllFresh | index.js:97-104 | with a sound memo table, the results are those of reading each file, and the table stays sound |
| Rewrite.DigestedUrlsCons | index.js:78-81 | the URLs with a digest in a list are those of its head, when it has one, and those of its tail |
| Rewrite.HashAllCacheKeys | index.js:80 | with a sound memo table, the keys afterwards are the keys before plus the URLs of the references whose files have a digest |
| Rewrite.HashAllOpens | index.js:51-58 | every file opened belongs to a reference's URL that was not in the memo table |
| Rewrite.HashAllWarns | index.js:60-65 | every warning is the missing-file message of a reference whose file is missing, and is printed only when missing files are allowed |
| Rewrite.Collect | index.js:107 | `when.all` fails exactly when some result is an error, with the first error in scan order, and otherwise yields every value in order |
| Rewrite.Apply | index.js:109-110 | without a hashed URL, or without an occurrence of the original text, the text is unchanged; otherwise the hashed URL takes the place of the first occurrence; every character of the result comes from the text or from the hashed URL |
| Rewrite.FoldFirst | index.js:108-112 | every character of the output comes from the input or from one of the hashed URLs |
| Rewrite.Finish | index.js:107-114 | `when.all` then the fold: fails exactly when some result failed, with the first failure in order |
| Rewrite.OnlyHashed | index.js:109 | the filtered results all carry a hashed URL |
| Rewrite.FoldSkipsUnhashed | index.js:108-112 | results without a hashed URL do not affect the fold |
| Rewrite.FoldNothingHashed | index.js:108-112 | when no result carries a hashed URL, the output equals the input |
| Rewrite.ReferencesIff | index.js:97-104 | a scanned match is sent to hashing exactly when its stripped URL passes the filter |
| Rewrite.ReferencesScanned | index.js:97-104 | every reference sent to hashing passes the filter and comes from a scanned match |
| Rewrite.Rewrite | index.js:93-118 | a pass changes or drops no cached entry; the lemmas below state its output, opened files and warnings |
| Rewrite.RewriteIsFresh | index.js:93-118 | with a sound memo table, the output is the substitution fold of the results of reading each file; the table stays sound and gains exactly the URLs with a digest |
| Rewrite.RewriteCacheIndependent | index.js:51-55 | with a sound memo table, the output is that of a plugin with an empty table |
| Rewrite.RewriteFailsIffFatal | index.js:60-71 | the stylesheet is rejected exactly when some accepted reference's file is missing with missing files not allowed, or fails to read |
| Rewrite.FreshAllFailsIffFatal | index.js:60-71 | `when.all` over fresh results fails exactly when some reference's file is missing with missing files not allowed, or fails to read |
| Rewrite.FreshAllFirstError | index.js:107 | a failed `when.all` over fresh results rejects with the error of a reference that no fatal reference precedes |
| Rewrite.FreshAllErrorIs | index.js:107 | the same, for the error `when.all` reports |
| Rewrite.RewriteFailsLikeFresh | index.js:107 | with a sound memo table, a rejected pass rejects with the error `when.all` gives on the fresh results |
| Rewrite.RewriteFirstError | index.js:107 | the error reported is that of an accepted reference, and no earlier accepted reference is fatal |
| Rewrite.RewriteSucceeds | index.js:107-113 | a successful pass has one fresh result per accepted reference, and its output is the fold of those results in scan order |
| Rewrite.RewriteNoReferences | index.js:106-117 | with no accepted reference, the output is the input, the memo table is unchanged, no file is opened and nothing is printed |
| Rewrite.RewriteWithoutUrl | index.js:106-117 | a stylesheet without `url(` is returned unchanged, with no file opened |
| Rewrite.RewriteOpensOnlyAccepted | index.js:51-58 | every file opened belongs to an uncached URL that passes the filter and is group 2 of some match, stripped; rejected references are never read |
| Rewrite.RewriteWarnsOnlyMissing | index.js:60-65 | every warning names an accepted URL whose file is missing, and is printed only when missing files are allowed |
| Plugin.CssHashes.constructor | index.js:19-35 | a new plugin has the resolved configuration, an empty memo table and empty logs |
| Plugin.CssHashes.HashifyUrl | index.js:44-85 | the imperative `hashifyUrl` is given by `Hashify`. A hit returns the cached value and changes nothing. A miss opens the URL's file, then: a digest returns the hashed URL and caches it at that key alone; a missing file leaves the table as it was, with a warning and no hashed URL when allowed and a missing-file error otherwise; any other error is returned |
| Plugin.CssHashes.HashUrls | index.js:95-104 | the `exec` loop hashes the accepted references in scan order and leaves the memo table and logs as `HashAll` gives them |
| Plugin.CssHashes.Substitute | index.js:108-112 | the `each` loop gives the first-occurrence fold of the results in order |
| Plugin.CssHashes.ReplaceUrls | index.js:93-118 | its output, memo table and logs are those of `Rewrite.Rewrite`. No cached entry changes. A sound memo table stays sound, and the output is that of a fresh plugin |
| Replacement.FirstMatchFirstOccurrence | index.js:110 | the first match's text occurs nowhere before it, so its replacement lands on the match itself |
| Replacement.FirstMatchReplaced | index.js:110 | replacing the first match's group 1 rewrites exactly the span of that match |
| Replacement.ReplaceFirstAt | index.js:110 | when the first occurrence is at `i`, `replace` keeps the text before `i` and after the occurrence and puts the replacement between |
| Replacement.FinishOne | index.js:107-113 | `when.all` over one result with a hashed URL, then the fold, is one first-occurrence replacement |
| Replacement.SingleReference | index.js:97-104 | a stylesheet whose single match is accepted sends exactly that match to hashing |
| Replacement.RewriteSingle | index.js:93-113 | with one reference sent to hashing whose file has a digest, the output is the stylesheet with its group 1's first occurrence replaced by the hashed URL |
| Replacement.SingleReferenceInPlace | index.js:93-113 | in a stylesheet with one match that is accepted and has a digest, the hashed URL takes exactly the place of that match |
| Replacement.ExampleDataMatch | index.js:23 | in `url(data:x,url(a.png)) url(a.png)` the first `exec` stops at the first `)`, inside the would-be nested reference |
| Replacement.ExamplePngMatch | index.js:97 | the next `exec` resumes after that `)` and finds the real `url(a.png)`, and nothing after it |
| Replacement.ExampleGroups | index.js:23 | group 2 of the first match starts with `data:`; the second match has group 1 `url(a.png)` and group 2 `a.png` |
| Replacement.PngAccepted | index.js:99-101 | `a.png` passes the default filter |
| Replacement.ExampleScan | index.js:97 | `url(data:x,url(a.png)) url(a.png)` scans as the data URI cut at its first `)`, then `url(a.png)` |
| Replacement.ExampleReferences | index.js:98-102 | in that stylesheet the data URI is rejected and `url(a.png)`, with URL `a.png`, is the only reference hashed |
| Replacement.ExampleFirstOccurrence | index.js:110 | in that stylesheet the first occurrence of `url(a.png)` is at 11, inside the data URI |
| Replacement.ReplaceReachesIntoEarlierMatch | index.js:106-113 | in that stylesheet the hashed URL replaces the copy inside the rejected data URI, not the reference that was scanned |
| Duplicates.BareMatched | index.js:23 | `url(u)` written anywhere, with `u` plain, is matched whole with `u` as group 2 |
| Duplicates.BareReference | index.js:46-48 | the reference of that match has group 1 `url(u)` and the URL `u` |
| Duplicates.TwiceExec | index.js:97 | on `url(u) url(u)`, `exec` finds the first copy, then the second, then nothing |
| Duplicates.TwoScanned | index.js:97 | two matches found in turn by `exec`, then none, are the whole scan |
| Duplicates.TwoKept | index.js:97-104 | two matches that both pass the test are both kept, in order |
| Duplicates.TwoReferences | index.js:97-104 | two matches found in turn, both accepted, are exactly the references sent to hashing |
| Duplicates.TwiceReferenced | index.js:46-48 | both copies give references with group 1 `url(u)` and the URL `u` |
| Duplicates.TwiceReferences | index.js:97-104 | when `u` passes the filter, both copies are sent to hashing, in order |
| Duplicates.HashedTwice | index.js:51-81 | hashing two references with the same text and URL from an empty memo table opens the file once, caches the hashed URL, and answers the second from the table with the same hashed URL |
| Duplicates.FinishTwo | index.js:107-113 | `when.all` over two hashed results, then the fold, is two first-occurrence replacements in order |
| Duplicates.HashedParen | index.js:79 | the only `(` in a hashed URL of a plain URL and a digest without `(` is the one of its leading `url(` |
| Duplicates.SecondCopyFirst | index.js:110 | after the first copy is replaced, the first occurrence of `url(u)` is the second copy |
| Duplicates.FirstCopyReplaced | index.js:110 | the first replacement rewrites the first copy |
| Duplicates.SecondCopyReplaced | index.js:110 | the second replacement rewrites the second copy |
| Duplicates.DuplicateReferences | index.js:93-118 | on `url(u) url(u)`, with `u` accepted and its file digested, the output is the hashed URL, a space and the hashed URL; the memo table gains `u`; the file is opened once (in the sequential model, see below); nothing is printed |

## Left out

- The through2 stream adapter, the `Buffer` conversions and the `PluginError` wrapping (index.js:120-128) are build-pipeline plumbing and are not part of this model.
- Reading a file through a stream and the MD5 digest are the abstract `FileSystem.read`. `path.join` is the abstract `FileSystem.join`. The model does not compute MD5.
- Concurrency of `when.promise` and `when.all`: hashing is modelled as sequential, in scan order, with each call seeing the memo table the previous one left. In JavaScript every cache lookup of one stylesheet happens before any read completes, so duplicates within one stylesheet are each read. `Rewrite.RewriteCacheIndependent` and `Plugin.CssHashes.ReplaceUrls` show that, with a sound memo table, the output does not depend on what is cached. So the sequential order changes which files are opened, but not the text produced.
- Duplicates.DuplicateReferences: its "opened once" holds in the sequential model only. In JavaScript both lookups of `u` miss before the first read ends, so the file is opened twice; the output text is the same either way. It also requires a digest without `(`, which a hexadecimal digest always meets.
- `when.all` rejects with the first rejection in time. The model reports the first rejection in scan order. Reads that JavaScript has already started after a rejection are still modelled as completing.
- The files on disk are assumed not to change during a run. A memo table built from an older version of a file is unsound, and the lemmas that need soundness require it.
- `console.log` and `chalk.yellow`: the warning is logged as its message. Colour and the console itself are not modelled.
- `cache = []` is a JavaScript array used as a dictionary. Keys inherited from `Array.prototype` or `Object.prototype` whose values are truthy, such as `constructor` or `__proto__`, count as hits there and return a function or an object as the hashed URL. The model's map has only the keys the plugin wrote.
- The URL `length` is a miss, because the array's `length` is 0 and so falsy, but writing `cache['length'] = hashedUrl` throws a `RangeError` inside the stream's `end` handler, where the promise does not catch it, so the promise does not settle. That throw is not modelled: the model caches the hashed URL under `length` like any other key.
- Options that are not booleans, strings or arrays: JavaScript truthiness of such values is not modelled. `allowMissingFiles` is an optional boolean, and an absent or empty `assetsPath` means `www`.
- Strings.Lower: lower-cases ASCII `A`-`Z` only. `toLowerCase` also folds non-ASCII letters, and that Unicode case mapping is not modelled.
- `$` patterns in replacement strings of `String.prototype.replace`: replacement is literal.
- Regular-expression state across stylesheets: `exec` on a `g` pattern leaves `lastIndex` at 0 after a failed search, so every call to `replaceUrls` starts from 0, as the model does.
