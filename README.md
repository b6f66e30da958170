# S3Vault indexing Lambda and CookieStorage, in Dafny

This project models two parts of S3Vault, a serverless file vault.

**The indexing Lambda** (`lambda/functions/index.js`). S3 notifies the Lambda when objects change. The handler works as follows:

- If the first notification is about one of the Lambda's own artifacts, it stops.
- Otherwise it groups the notified keys by directory. Keys whose extension is highlightable are marked as candidates, and excluded base names are skipped.
- For each directory it highlights the candidates. It then rebuilds the `index.partial` listing of that directory and of every directory above it.
- A highlight fetches the object and runs highlight.js on it. It wraps the result in a line-number gutter and uploads it as `key + ".highlight"`.
- A build lists a folder page by page and renders sub-folder rows and object rows into one table. After the last page it uploads the table.

**`CookieStorage`** (`src/CookieStorage.js`) is a Web Storage object kept in `document.cookie`:

- `toObject` parses the cookie string into a plain object.
- `toString` flattens an object back into a cookie string.
- `getItem` reads one key of the parsed object.
- `setItem` and `removeItem` assign Set-Cookie strings.
- `clear` removes every parsed key.

Modules, one per file:

- `strings.dfy` (`Strings`) holds the JavaScript built-ins the source relies on: `split` and `join` on one character, `Number#toString`, `padStart` and `trim`.
- `paths.dfy` (`Paths`) holds Node's `path.basename` and `path.extname`, the directory regex of index.js:67 and the leading-slash strip of index.js:148.
- `config.dfy` (`Config`) reads LANGUAGES, STORAGECLASS and EXCLUDES.
- `runtime.dfy` (`Runtime`) holds the bucket, the opaque libraries and the record of a run:
  - the bucket is a map of objects, the listing responses per prefix, and the keys whose upload is refused;
  - a run is the uploads it completed, in order, and how it ended;
  - `Sequence` is the async fan-out run one step at a time, where the first error ends the run.
- `highlight.dfy` (`Highlighter`) holds `exports.highlight` and the gutter wrap.
- `build.dfy` (`IndexBuilder`) holds `exports.build`: the row filters, the page walk, and the loops that push rows onto `fragments`.
- `batch.dfy` (`Batch`) holds `exports.batch`: the ancestor folders and the batch loop.
- `handler.dfy` (`Handler`) holds `exports.index`: the guard, the grouping reduce and the per-directory dispatch.
- `cookies.dfy` (`Cookies`) holds the `CookieStorage` class. It also has a reader for Set-Cookie strings that follows section 5.2 of RFC 6265, which shows what the browser makes of each assignment.

Code that updates state in place is modelled as methods with loops. Each method is proved equal to a specification function, and the promised properties are lemmas about that function. This covers:

- the grouping reduce (`Handler.Group`);
- the `fragments` accumulation (`IndexBuilder.PushPrefixRows`, `IndexBuilder.PushObjectRows`, `IndexBuilder.Build`);
- the parse loop of `toObject` and the flatten loop of `toString`;
- the cookie writes (`Cookies.CookieStorage`, a class whose `written` field records each assignment to `document.cookie`).

Where the written text and the code disagree, the model follows the code:

- The guard looks only at `Records[0]`. Later artifact keys in the same batch are grouped like any other key.
- A key without a slash belongs to directory "/", not "". `build` then strips the slash, so the root index is `index.partial` at the top of the bucket.
- The index artifact is named `index.partial`.
- An excluded non-candidate does not register its directory.
- The two sorts compare base names by subtraction, which is not an alphabetical order. Names that are all numeric (or empty) are sorted by value, so "10/", "2/" and "9/" come out as 2, 9, 10. A non-numeric name gives NaN, which `sort` treats as 0, so such names compare equal and keep listing order. The model does not sort; see Left out.
- A listing of several pages is uploaded more than once; see Findings.

## Model

| member | source | states |
|---|---|---|
| Strings.Split | lambda/functions/index.js:243 | `s.split(c)` has one more piece than `s` has `c`s, and no piece contains `c` |
| Strings.JoinSplit | lambda/functions/index.js:243-246 | joining the pieces of a split with the same separator gives the string back |
| Strings.Decimal | lambda/functions/index.js:118 | `n.toString()` is a non-empty run of decimal digits with no leading zero |
| Strings.DecimalRoundTrip | lambda/functions/index.js:122 | the decimal text of `n` denotes `n` |
| Strings.DecimalLengthMonotone | lambda/functions/index.js:118-122 | a smaller number never has more digits, so no line number is wider than the line count |
| Strings.PadStart | lambda/functions/index.js:122 | `padStart` keeps the string as a suffix, fills the front with the pad character, and has the larger of the two lengths |
| Strings.TrimStart | src/CookieStorage.js:88 | drops exactly the leading JavaScript white space |
| Strings.TrimEnd | src/CookieStorage.js:88 | drops exactly the trailing JavaScript white space |
| Config.Load | lambda/functions/index.js:24-38 | LANGUAGES becomes colon-free pieces that join back to the variable; the storage class is the variable, or STANDARD when it is empty; EXCLUDES is the variable's colon-free pieces followed by "index.partial" |
| Config.LoadDefaults | lambda/functions/index.js:24-38 | with nothing set: languages `[""]`, storage class STANDARD, excludes `["", "index.partial"]` |
| Paths.Basename | lambda/functions/index.js:75 | the base name holds no slash and does not end in one |
| Paths.BasenameOf | lambda/functions/index.js:75 | the base name is the end of the path once its trailing slashes are removed, and is either all of it or preceded there by a slash |
| Paths.Extname | lambda/functions/index.js:70 | the extension is empty, or a dot with no further dot that ends the base name, so it runs from the base name's last dot |
| Paths.ExtnameNonEmpty | lambda/functions/index.js:70 | the extension is non-empty iff the base name is not ".." and has a dot after its first character |
| Paths.Extension | lambda/functions/index.js:70 | the extension is `path.extname` without its dot, or empty when `path.extname` is; it has no dot and no slash |
| Paths.Directory | lambda/functions/index.js:67 | the directory always contains "/"; for a one-line key it ends in "/" and is the key up to its last slash, or "/" for a key with no slash |
| Paths.StripLeadingSlash | lambda/functions/index.js:148 | removes one leading slash when there is one, and otherwise changes nothing |
| Runtime.Then | lambda/functions/index.js:88-90 | two steps succeed iff both do; a failed first step is the whole result; otherwise the uploads are concatenated and the second step's outcome, error included, is the result's |
| Runtime.ThenParts | lambda/functions/index.js:88-90 | a successful pair had both steps succeed, and holds every upload of both |
| Runtime.SequenceStops | lambda/functions/index.js:245-247 | once one item's step has failed, the later items change nothing |
| Runtime.SequencePart | lambda/functions/index.js:245-247 | when the fan-out succeeds, every item's step succeeded and its uploads are in the whole |
| Runtime.SequencePuts | lambda/functions/index.js:245-247 | every upload of the fan-out comes from one item's step |
| Runtime.SequenceAtMostOne | lambda/functions/index.js:245-247 | steps of at most one upload give at most one upload per item |
| Runtime.GetObject | lambda/functions/index.js:108 | the fetch returns the stored object iff the bucket holds the key, and NoSuchKey for that key otherwise |
| Runtime.StorageClassOf | lambda/functions/index.js:261 | `data.StorageClass || STORAGECLASS`: a present, non-empty class is kept, and otherwise the configured one is used |
| Runtime.PutObject | lambda/functions/index.js:260-262 | the upload succeeds iff the key is not refused; it then records exactly that key and body with the given storage class, or the configured one when that is absent or empty; a refused upload records nothing and fails with PutRefused for the key |
| Highlighter.SplitLines | lambda/functions/index.js:117 | one line more than there are line feeds, and no line holds a line feed |
| Highlighter.Spans | lambda/functions/index.js:121-122 | one gutter span per line |
| Highlighter.SpanAt | lambda/functions/index.js:118-122 | span `i` holds the number i + 1, right-aligned with spaces to the digit count of the line count, and its digits denote i + 1 |
| Highlighter.WrapShape | lambda/functions/index.js:117-123 | the body has a gutter of line-feed count + 1 spans joined by "\n", then the highlighted text unchanged between `<pre><code>` and `</code></pre>` |
| Highlighter.HighlightWrites | lambda/functions/index.js:103-134 | a highlight succeeds iff the object exists, the highlighter does not throw and the upload is accepted; it then uploads only the wrapped text to `key + ".highlight"`, with the object's own storage class or else the configured one |
| Highlighter.HighlightAllPuts | lambda/functions/index.js:89 | every upload of the highlights of a directory is the artifact of one of its keys |
| Highlighter.HighlightAllCovers | lambda/functions/index.js:89 | when the highlights succeed, every key has its artifact |
| IndexBuilder.ListedPrefixes | lambda/functions/index.js:171-181 | a sub-folder gets a row iff its base name is not excluded |
| IndexBuilder.ListedObjects | lambda/functions/index.js:187-194 | an object gets a row iff its base name is not excluded, its key does not end in "/", and its base name does not end in ".highlight" |
| IndexBuilder.ViewLink | lambda/functions/index.js:204 | the view link is present iff the extension is highlightable |
| IndexBuilder.PushPrefixRows | lambda/functions/index.js:171-181 | the loop appends the rows of exactly the listed sub-folders, in listing order |
| IndexBuilder.PushObjectRows | lambda/functions/index.js:187-214 | the loop appends the nine fragments of exactly the listed objects, in listing order |
| IndexBuilder.Build | lambda/functions/index.js:146-232 | the page loop ends in the run `BuildSpec` describes |
| IndexBuilder.BuildFromComplete | lambda/functions/index.js:216-222 | a listing that completes uploads the fragments so far, then every page's rows in page order, then the closing tags |
| IndexBuilder.BuildWritesIndex | lambda/functions/index.js:148-149 | a complete listing and an accepted upload give exactly one upload. Its key is the folder without its leading slash plus "index.partial". It holds the opening tags, every page's rows in page order and the closing tags, with the configured storage class |
| IndexBuilder.EmptyFolderIndex | lambda/functions/index.js:149-222 | an empty folder's index is the opening tags directly followed by the closing ones |
| IndexBuilder.BuildFromFails | lambda/functions/index.js:151-165 | a listing error, or a listing that stops on a truncated page, ends the build with no upload |
| IndexBuilder.BuildFromPuts | lambda/functions/index.js:216-227 | whatever the listing, the corrected build uploads once when it succeeds and never when it fails, and only to the folder's index key |
| IndexBuilder.BuildSpecPuts | lambda/functions/index.js:148-227 | the same, with the index key built from the folder without its leading slash |
| IndexBuilder.BuildAsWrittenFromComplete | lambda/functions/index.js:216-227 | as written, a listing with `n` truncated pages uploads the table once and then `n` more times with no body |
| IndexBuilder.MultiPageIndexLastUploadHasNoBody | lambda/functions/index.js:217-227 | as written, the last upload of a listing of more than one page has no body; the corrected build uploads the table once |
| Batch.AncestorFolders | lambda/functions/index.js:243-246 | one folder per piece of `folder.split('/')` |
| Batch.AncestorFolder | lambda/functions/index.js:243-246 | the first folder is "/"; folder `i` > 0 is the prefix of the directory that ends at its i-th slash |
| Batch.LastAncestorIsFolder | lambda/functions/index.js:243-246 | for a directory, the last folder rebuilt is the directory itself |
| Batch.AncestorFoldersExamples | lambda/functions/index.js:243-246 | "a/b/" rebuilds "/", "a/" and "a/b/"; "/" rebuilds the root twice |
| Batch.BuildsWriteIndexOnly | lambda/functions/index.js:226-227 | a build step uploads only its folder's index, once when it succeeds |
| Batch.BatchCovers | lambda/functions/index.js:241-249 | a successful batch has rebuilt the index of every ancestor folder |
| Batch.BatchIndexes | lambda/functions/index.js:241-249 | a batch uploads only indexes of ancestors; when it succeeds it has rebuilt the root index and, for a directory, the directory's own index |
| Batch.RunBatch | lambda/functions/index.js:241-249 | the loop runs one build per ancestor folder from the root down, and stops at the first failure |
| Handler.Find | lambda/functions/index.js:71-80 | the accumulator lookup finds the entry of the directory, or reports that there is none |
| Handler.RegisterShape | lambda/functions/index.js:65-86 | one reduce step keeps every directory in place and adds at most one new, registering directory at the end |
| Handler.CandidateKeysMembers | lambda/functions/index.js:70-71 | a key is in its directory's list iff a candidate record carries it |
| Handler.GroupedCorrect | lambda/functions/index.js:65-86 | after the reduce, every directory appears at most once. The directories are exactly those of candidates and of records with a non-excluded base name. Each holds exactly its candidates' keys in arrival order |
| Handler.Group | lambda/functions/index.js:65-86 | the reduce loop produces the grouping `GroupedCorrect` describes |
| Handler.RunDirectory | lambda/functions/index.js:88-90 | a directory's highlights run first, and its batch runs only when they all succeeded |
| Handler.Index | lambda/functions/index.js:52-94 | missing records fail; an artifact key in the first record ends the run with no work; otherwise every directory's work runs, up to the first failure |
| Handler.DirectoryRunPuts | lambda/functions/index.js:88-90 | a directory's work uploads only highlight artifacts and indexes |
| Handler.OwnWritesAreGuarded | lambda/functions/index.js:55-59 | every object the handler writes has a key that makes a later invocation stop at the guard |
| Handler.EveryCandidateHighlighted | lambda/functions/index.js:65-92 | when the handler succeeds, every candidate record has its highlight artifact |
| Handler.EveryAncestorIndexed | lambda/functions/index.js:65-92 | when the handler succeeds, every ancestor of every registered directory has its index rebuilt |
| Cookies.StringOr | src/CookieStorage.js:18-22 | a string argument falls back iff it is missing or empty |
| Cookies.IntOr | src/CookieStorage.js:27 | an integer argument falls back iff it is missing or zero |
| Cookies.SettingsDefaults | src/CookieStorage.js:17-28 | the settings are never falsy; the defaults are "/", 3600 and "strict" |
| Cookies.CookieStorage.constructor | src/CookieStorage.js:13-28 | the settings are the arguments or their defaults; nothing has been written |
| Cookies.IndexOf | src/CookieStorage.js:88 | the position found holds the key; -1 means no property has it |
| Cookies.AssignLookup | src/CookieStorage.js:88 | after `map[key] = value` the key reads the new value, unless it is `__proto__`; every other key reads as before |
| Cookies.AssignKeys | src/CookieStorage.js:88 | an assignment keeps keys distinct and adds no key but its own |
| Cookies.ParsedLookup | src/CookieStorage.js:83-91 | a key is absent iff it is `__proto__` or no piece carries it; otherwise its value is that of the last piece carrying it |
| Cookies.ParsedKeys | src/CookieStorage.js:83-91 | the parsed object has distinct keys, none `__proto__`, each read from some piece |
| Cookies.CookieLookup | src/CookieStorage.js:31-33 | reading a key from the parse of the empty string gives undefined. On any other string, the key is absent iff it is `__proto__` or no `;`-piece has it; otherwise the last `;`-piece with the key gives its value |
| Cookies.ParseBareName | src/CookieStorage.js:86-88 | a piece with no "=" is a key with an empty value |
| Cookies.CookieStorage.ToObject | src/CookieStorage.js:70-93 | the loop builds the object `ParseCookie` describes, with `{}` for the empty string |
| Cookies.CookieStorage.GetItem | src/CookieStorage.js:30-34 | `getItem(key)` is the key's value in `toObject()`, or undefined |
| Cookies.FlattenJoins | src/CookieStorage.js:60-62 | the loop text is the `key=value` pairs joined by "; ", plus a final "; " |
| Cookies.SerializeJoins | src/CookieStorage.js:60-64 | `toString(map)` is the pairs joined by "; ", with no trailing separator; an empty object gives "" |
| Cookies.CookieStorage.ToString | src/CookieStorage.js:50-66 | with no argument it returns the cookie string; with an object, its serialisation |
| Cookies.PieceFields | src/CookieStorage.js:86-88 | a piece `key=value` with or without a leading space reads back as that key and that value |
| Cookies.ParsedExact | src/CookieStorage.js:85-89 | pieces that read as distinct keys give one property each, in order |
| Cookies.RoundTrip | src/CookieStorage.js:60-89 | parsing the string form of an object gives the object back, when no key or value holds ';' or '=' or surrounding white space, and keys are distinct and not `__proto__` |
| Cookies.SetLineParses | src/CookieStorage.js:45 | the corrected `setItem` line sets the cookie with its value, a Max-Age of the setting and a Path of the path setting |
| Cookies.SetLineAsWrittenLosesPath | src/CookieStorage.js:45 | the line as written carries an attribute named "path" plus the path, so the cookie gets no Path attribute |
| Cookies.RemoveLineParses | src/CookieStorage.js:38 | the `removeItem` line sets the cookie empty, with a 1970 expiry and a Path of the path setting |
| Cookies.RemoveLineInjective | src/CookieStorage.js:38 | different keys give different `removeItem` lines |
| Cookies.CookieStorage.SetItem | src/CookieStorage.js:43-48 | one assignment, the corrected `setItem` line, is recorded; the method returns the storage |
| Cookies.CookieStorage.RemoveItem | src/CookieStorage.js:36-41 | one assignment, the `removeItem` line, is recorded; the method returns the storage |
| Cookies.ClearLines | src/CookieStorage.js:96-107 | `clear` writes one line per parsed key, each key once, and a key's line appears iff the key reads a value |
| Cookies.CookieStorage.Clear | src/CookieStorage.js:96-107 | the loop records one `removeItem` line per key of `toObject()`, in order, and returns the storage |

## Left out

- Network calls are parameters. `getObject`, `listObjectsV2` and `putObject` act on the `Bucket` value, whose listing is the given sequence of responses for a prefix. The continuation token and the URL encoding of listed keys are not modelled, and an object body is a string rather than bytes decoded as UTF-8.
- highlight.js, filesize and moment are opaque functions. `highlightAuto` may fail; the two time formats of `moment` are separate functions of the LastModified text.
- The async.js fan-outs (`eachOf`, `each`, `waterfall`) run one step at a time, and the first error ends the run. Steps that would have run concurrently with a failing one are not modelled. Uploads done before a failure stay done.
- IndexBuilder.PushPrefixRows and IndexBuilder.PushObjectRows push rows in listing order: the two `sort` calls before them (index.js:167-169, 183-185) are not modelled. The source sorts numeric (or empty) base names by value, and "10/", "2/", "9/" come out as 2, 9, 10 where the model keeps the listing's 10, 2, 9. A non-numeric name compares equal to every name, because NaN counts as 0, so when no two names are both numeric the stable sort keeps listing order as the model does. When numeric and non-numeric names are mixed the comparator is inconsistent and the source's order depends on the engine.
- IndexBuilder.BuildSpec: the recursive call for the next page strips a leading slash a second time. The model strips once per build, so a folder starting with "//" is not listed as the source lists it.
- IndexBuilder.Build: computes the corrected build, which uploads the finished table of a folder once. The source uploads it again with no body after a truncated page. That behaviour is modelled separately by IndexBuilder.BuildAsWrittenFrom; see Findings.
- Batch.RunBatch: runs the corrected build for each ancestor folder, so a folder listed over several pages has its index uploaded once rather than a second time with no body; see Findings.
- Handler.Index: runs the corrected build through Batch.RunBatch, with the same difference from the source; see Findings.
- Handler.Index: a batch with no records is the error `NoRecords`. The source throws a TypeError on `Records[0]`, and its `callback` is never called.
- The accumulator object of the grouping is a sequence of entries in insertion order. Directory names always contain "/", so they are never integer-like property names or inherited properties. Order and lookup therefore match a plain object.
- Cookies.CookieStorage.GetItem: a key naming an inherited property of `Object.prototype`, such as `toString`, reads that property in the source. The model reads only own properties.
- The parsed and flattened objects keep insertion order. JavaScript lists integer-like keys first, in numeric order; that order is not modelled.
- Cookies.CookieStorage.SetItem, Cookies.CookieStorage.RemoveItem and Cookies.CookieStorage.Clear leave `cookie` unchanged. The way a browser merges an assignment into its cookie jar is not modelled, so `clear` removes the keys of the cookie string as it was when called.
- Cookies.CookieStorage.SetItem: records the corrected line, with "; path=" before the path, where the source writes "; path" with no "=". The line as written is Cookies.SetLineAsWritten; see Findings.
- The `samesite` setting is stored but never written into a cookie. The source does the same.
- `maxAge` is an integer. A non-integer number, or a value that is not a string, is not modelled.
- The row markup is modelled as text, with the same fragments in the same order. It is not checked against HTML rules.

## Findings

| source | as written | input that shows it | evidently intended | confidence | as-written member | corrected member |
|---|---|---|---|---|---|---|
| lambda/functions/index.js:217-227 | after a truncated page, the inner `build` uploads the table and hands the `putObject` response to the outer waterfall. Its upload step then calls `putObject` again on the same key with `data.Body` undefined | a folder whose listing is one truncated page and then a last page: the table is uploaded, then `index.partial` is uploaded again with no body | upload the finished table once | not executed | IndexBuilder.MultiPageIndexLastUploadHasNoBody | IndexBuilder.BuildWritesIndex |
| src/CookieStorage.js:45 | `'; path' + this.__path` has no "=" | `CookieStorage()` then `setItem("a", "b")` assigns "a=b; max-age=3600; path/". A user agent reads an attribute named "path/" with no value, so the cookie gets the page's default path | `'; path=' + this.__path` | not executed | Cookies.SetLineAsWrittenLosesPath | Cookies.SetLineParses |

The as-written build is `IndexBuilder.BuildAsWrittenFrom` and the corrected one is `IndexBuilder.BuildSpec`; the handler and the batch use the corrected build. The as-written `setItem` line is `Cookies.SetLineAsWritten` and the corrected one is `Cookies.SetLine`, which `Cookies.CookieStorage.SetItem` writes.
