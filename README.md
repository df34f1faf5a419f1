# downlog: a verified model of log search and archive download

downlog is a small log-download service. Its browser client posts a date to a node. The
server checks the JSON request and reads the date written in its RFC 3339 timestamp. It
then walks a log directory for files modified on that day and streams them back as one
zip archive. This project models that pipeline in Dafny and proves what each step promises.
It covers the server side of `server.go` and the pure parts of the client in `front/script.js`.

Modules, one per concern:

- `Strings` (`strings.dfy`): `stringContains` as an index loop proved against a
  substring specification, and the `contains` wrapper.
- `Dates` (`dates.dfy`): Go's `"2006-01-02"` layout (parse and format), the
  proleptic Gregorian calendar, and UTC midnight in nanoseconds since the epoch.
- `Timestamps` (`timestamps.dfy`): the RFC 3339 date-time grammar as Go's
  `time.Parse(time.RFC3339, …)` accepts it, with the formatter it inverts.
- `FileFinder` (`finder.dfy`): the filesystem is a tree of directories with ordered
  children, files with a name, a modification time, whether `os.Open` succeeds and
  whether the content then reads, and entries whose `Lstat` or listing fails. `findFiles` is a method that walks the tree in `filepath.Walk`'s
  pre-order. It is proved equal to a specification function, and the properties
  are proved about that function.
- `Archive` (`archive.dfy`): the zip writer is a class holding the members written so far
  and a `closed` flag. `addFileToZip`, `addDirToZip` and `handleDownload` are methods on
  it, each proved against a function saying which members it writes and whether it fails.
- `Request` (`request.dfy`): `validationReguest` as a sequence of checks over an abstract
  request (method, decode outcome, trailing content, timestamp).
- `ClientDates` (`client_dates.dfy`): the client's `toRFC3339DateOnly` and its round
  trip through the server's validation.
- `ClientDownload` (`client_download.dfy`): the live `postAndDownloadMultiple` and
  `postAndDownload`. These cover the reply checks, the saved file names (the
  `filename=` capture and the extension removal, written out as the JavaScript regular
  expressions match), and the error-message priority chain.

Notes on the code, each proved in the model:

- The day window is strict at both ends (`server.go:307`). A file stamped exactly at
  midnight of the requested day is not selected (`FileFinder.WindowIsOpenDay`). The
  window also ends at the next midnight, not at the 23:59:59 named in the comment at
  `server.go:286`. The model follows the code.
- `contains` tests `len(needle) > 0` first, so its `needle == ""` branch is dead, and
  `contains(h, "")` is false. `findFiles` guards the empty name itself
  (`Strings.ContainsMeaning`, `FileFinder.NameFilter`).
- `addDirToZip` computes `ap` and never uses it. Every member is named by the file's last
  path element alone, so an archive of a directory tree is flat and may hold two members
  with the same name (`Archive.DirArchiveIsFlat`). In general a directory gives one
  member per file of its walk, in depth-first listing order, and a failure leaves a
  prefix of that sequence (`Archive.DirArchiveFollowsWalk`).
- A file name may end in `\`, which the member name turns into `/`. `archive/zip` takes
  such a name for a directory: it stores the member with Store instead of the Deflate
  asked for, and refuses its data. So the file fails to copy unless it is empty, and
  the download answers 500 (`Archive.TrailingBackslashStored`).
- `defer zw.Close()` comes after the loop in `handleDownload`, so the writer ends closed
  exactly when every path was added (`Archive.HandleDownload`, `Archive.DownloadSucceeds`). On a failure the writer
  holds the members of the paths before the failing one and that path's partial output,
  and the handler answers with the 500 text (`Archive.DownloadStopsAtFirstFailure`).
  Those members are the writer's record, not the bytes the client receives: see
  "Left out".
- In the live `postAndDownloadMultiple` every task error is re-wrapped in a fresh
  `Error`. So the `AbortError` branch of its catch block can never run, and a timeout
  there is not reported as one (`ClientDownload.MultipleOutcomeCases`). Group 1 of
  the HTTP regex cannot be empty, so `|| 'Node'` never applies.
- When `findFiles` fails, `catalinalog` returns without writing a body. The client then
  sees a 200 reply typed `application/json; charset=utf-8` by the validation step. It
  reports that as "not a ZIP archive" (`ClientDownload.EmptyServerReplyIsNotZip`).

## Model

| member | source | states |
|---|---|---|
| Strings.StringContains | server.go:330-337 | the loop answers true exactly when `sub` occurs at some offset `0 ≤ i ≤ len(s)-len(sub)` |
| Strings.OccursEmpty | server.go:330-337 | the empty string is found in every string |
| Strings.OccursTooLong | server.go:331 | a string longer than `s` is never found in it |
| Strings.ContainsMeaning | server.go:326-328 | `contains(h, "")` is false; for a non-empty needle `contains` is exactly substring occurrence |
| Strings.OccursInFrame | server.go:330-337 | a string occurs in any text built around it |
| Dates.ParseUintMeaning | server.go:111 | a digit field yields n exactly when n is in range, fits the field's width and the field is n written at that width with leading zeros |
| Dates.DecimalOfPadded | server.go:149 | reading back a zero-padded number gives the number |
| Dates.PaddedOfDecimal | server.go:149 | padding a digit string's value to its width gives the string back |
| Dates.ParseDateThenFormat | server.go:281 | a date accepted by the "2006-01-02" layout is a valid calendar date whose formatting is the input |
| Dates.FormatDateThenParse | server.go:149 | every valid date with a 4-digit year formats to text the layout parses back to it |
| Dates.NextDate | server.go:287 | the day after a valid date has a month from 1 to 12 and a day from 1 to that month's length |
| Dates.DaysBeforeNewYear | server.go:287 | a year has 365 days, 366 in a leap year |
| Dates.NextMidnight | server.go:287 | `AddDate(0, 0, 1)` on a UTC midnight is the next UTC midnight, exactly one day of nanoseconds later |
| Timestamps.SkipDigits | server.go:111 | skipping a fraction stops at the first non-digit, and what it skips is all digits |
| Timestamps.ParseClockThenFormat | server.go:111 | an accepted hh:mm:ss has hour ≤ 23, minute and second ≤ 59, and reformats to itself |
| Timestamps.FormatClockThenParse | server.go:111 | every in-range clock time formats to text that parses back to it |
| Timestamps.ParseOffsetThenFormat | server.go:111 | an accepted zone is `Z` or `±hh:mm` in range, and reformats to itself |
| Timestamps.FormatOffsetThenParse | server.go:111 | every valid zone formats to text that parses back to it |
| Timestamps.SplitFractionThenJoin | server.go:111 | the fraction split off is all digits, and fraction and rest rebuild the input |
| Timestamps.SplitFractionOfText | server.go:111 | a written fraction followed by a zone splits back into the two |
| Timestamps.ParseThenFormat | server.go:106-112 | every timestamp the parser accepts is a valid date-time whose formatting is the input itself |
| Timestamps.FormatThenParse | server.go:106-112 | every valid date-time formats to a timestamp that parses back to it |
| Timestamps.DatePartIsPrefix | server.go:143-149 | the date of an accepted timestamp is valid and formats to the timestamp's first ten characters |
| Request.ValidationOrder | server.go:114-147 | the checks run in order (method, decode, trailing content, timestamp), and the first failing one decides the error |
| Request.ValidationAccepts | server.go:114-149 | a request is accepted exactly when all four checks pass; the key is the timestamp's first ten characters, a date the finder's layout parses |
| Request.EmptyTimestampRefused | server.go:106-109 | an empty timestamp, also what a body without the field decodes to, is refused as invalid |
| Request.KeyIgnoresClockAndOffset | server.go:143-149 | two accepted timestamps give the same key exactly when their date parts are equal, whatever their clock, fraction or offset |
| Request.ErrorsAreClientErrors | server.go:116-146 | every error is answered with a 4xx status, and distinct errors carry distinct texts |
| FileFinder.ChildNamed | server.go:290 | looking up a name among a directory's entries finds an entry with that name, or reports that none has it |
| FileFinder.FindFiles | server.go:276-323 | the walk with its callback returns exactly the finder's result: bad date, walk error, no files, or the matching paths |
| FileFinder.WalkFrom | server.go:290-312 | walking a subtree fails exactly when some entry of its pre-order cannot be lstat'ed or listed; otherwise it appends that walk's matches to those found before |
| FileFinder.WalkDirectory | server.go:290-312 | walking a directory's entries in order fails exactly when one of their walks does; otherwise it appends their matches in order |
| FileFinder.FileWalk | server.go:296-309 | the walk from a file is that one visit: it never fails, and it matches the file's path exactly when the file passes both tests |
| FileFinder.DirWalk | server.go:290-296 | the walk from a directory fails and matches exactly as the walk over its entries does |
| FileFinder.WalkDirectoryStep | server.go:290-312 | the walk of one more entry fails exactly when that entry's walk does, which fails the directory; its matches follow the earlier ones |
| FileFinder.WalkChildrenPrefix | server.go:290 | the walk of the first k entries is a prefix of the walk of all entries |
| FileFinder.BrokenAppend | server.go:291-292 | a walk in two parts fails exactly when one part does |
| FileFinder.MatchesAppend | server.go:307-308 | the matches of a walk in two parts are the first part's matches followed by the second's |
| FileFinder.NameFilter | server.go:300-303 | an empty name admits every file; a non-empty one admits exactly the file names that contain it |
| FileFinder.WindowIsOpenDay | server.go:281-287 | a time is in the window exactly when it lies strictly between the day's UTC midnight and the next one; both midnights are outside |
| FileFinder.MatchesMembers | server.go:296-309 | a path is matched exactly when some visit at that path is a regular file that passes the name and time tests |
| FileFinder.MatchesInWalkOrder | server.go:290-308 | the matched paths are a subsequence of the walk's paths, in walk order |
| FileFinder.WalkUnder | server.go:290 | every path the walk visits lies under the root path |
| FileFinder.LookupAppend | server.go:290 | looking up a path extended by another is looking the second up from the first's entry |
| FileFinder.ChildNamedUnique | server.go:290 | with distinct sibling names, looking up a child's name finds that child |
| FileFinder.WalkResolves | server.go:290 | every visit of the walk is the entry its path names in the filesystem |
| FileFinder.LookupWellFormed | server.go:290 | every subtree of a tree with distinct sibling names has distinct sibling names |
| FileFinder.FindFilesFound | server.go:290-322 | a successful search is non-empty and in walk order; each path is under the root and names a regular file that passes both tests; every selected file is found |
| FileFinder.FindFilesFails | server.go:281-322 | it is a date error exactly when the date does not parse, a walk error exactly when the root is missing or some entry cannot be lstat'ed or listed, and a success is never empty |
| Archive.MemberNameOfPath | server.go:235-236 | a member's name is the path's last element with every `\` turned into `/`, and holds no `\` |
| Archive.ZipWriter.constructor | server.go:195 | a new writer has no members and is open |
| Archive.ZipWriter.CreateHeader | server.go:239 | a header adds exactly one member at the end, stored with Store and refusing data when its name ends in `/`, otherwise with the method asked for; the closed flag stays as it was |
| Archive.ZipWriter.Close | server.go:213 | closing keeps the members and marks the archive closed |
| Archive.AddFileToZip | server.go:216-251 | a file that opens adds one member named by its base name (Deflate, or Store for a name ending in `/`) and succeeds when its content reads and the member accepts it; a directory adds the member and fails on the copy; a missing path, an entry whose lstat fails or a file that does not open adds nothing and fails |
| Archive.AddDirToZip | server.go:253-272 | a directory adds the members of its entries in order, recursing into subdirectories, stopping at the first failure; anything else fails and adds nothing (Archive.DirArchiveFollowsWalk states these members against the walk of the tree) |
| Archive.AddEntries | server.go:258-270 | the entry loop adds each entry's members in order and stops at the first failing entry |
| Archive.AddNextEntry | server.go:258-270 | one turn of the entry loop: the next entry's members follow those of the entries before it, or the loop ends in failure with the directory's outcome |
| Archive.AddEntryToZip | server.go:259-269 | an entry adds exactly its own members and succeeds exactly when its outcome does, recursing for a directory and adding a file otherwise |
| Archive.DirArchiveFollowsWalk | server.go:253-272 | a directory's archive succeeds exactly when every entry of its walk is a directory or a file that opens and reads and whose data its member accepts; it then holds one base-name member per file in walk order (Deflate, or Store for a name ending in `/`), and on failure a prefix of those |
| Archive.EntriesFollowWalk | server.go:257-270 | the entry loop succeeds exactly when all entries of the entries' walks can be added, and writes a prefix of, or on success exactly, their file members |
| Archive.EntryFollowsWalk | server.go:259-268 | one entry, recursed into or added as a file, succeeds exactly when its walk can be added, and writes a prefix of, or on success exactly, its file members |
| Archive.UnopenableFile | server.go:219-222 | a file that does not open leaves the walk unbroken, yet addFileToZip writes nothing and fails, and a "file" download of it is the 500 reply with no members |
| Archive.HandleDownload | server.go:188-214 | the handler's reply is the archive of all listed paths when each was added, else the 500 text together with the writer's member list at the failure; the writer holds the members of the download's outcome and ends closed exactly when the reply is the archive |
| Archive.ChildLookup | server.go:259 | joining a directory's path with an entry's name names that entry |
| Archive.EntriesStep | server.go:258-270 | one more entry runs after the entries before it |
| Archive.EntriesFailureSticks | server.go:262-268 | once an entry fails, the entries after it change nothing |
| Archive.DownloadFailureSticks | server.go:200-210 | once a path fails, the paths after it change nothing |
| Archive.DownloadSucceeds | server.go:197-213 | the reply is the archive (the writer then closed, by Archive.HandleDownload) exactly when every listed path was added without error |
| Archive.DownloadStopsAtFirstFailure | server.go:197-210 | a failed reply carries the error text for its type and the members of the paths before the first failing one plus that one's partial members |
| Archive.FirstFailure | server.go:197-210 | a failed download has a first failing path: every path before it was added, and the writer holds their members followed by that path's partial output |
| Archive.FileArchive | server.go:197-237 | a successful "file" download has one member per path, in order, named by its base name and Deflate unless the name ends in `/` (then Store, and the file is empty); every path is a regular file that opens and reads |
| Archive.TrailingBackslashStored | server.go:235-247 | a file whose base name ends in `\` gets a member name ending in `/`, stored with Store, and its copy succeeds exactly when the file is empty |
| Archive.UnknownTypeGivesEmptyArchive | server.go:198-211 | for a type other than "file" and "dir", the reply is an empty archive |
| Archive.DirectoryAsFile | server.go:219-246 | a directory listed as "file" writes a member and then fails |
| Archive.DirArchiveIsFlat | server.go:258-266 | two files with the same name in different subdirectories give two members with the same bare name |
| ClientDates.UtcDay | front/script.js:208 | `Date.UTC` on a day within its month, or on 29 February, gives a valid date: the day itself, or 1 March for 29 February of a common year |
| ClientDates.IsoMidnightIsRFC3339 | front/script.js:209-210 | the ISO string of a UTC midnight is an RFC 3339 timestamp the server parses back to that date at 00:00:00Z (the server side is Timestamps.ParseRFC3339, server.go:106-112) |
| ClientDates.ServerKeyOfIsoMidnight | server.go:143-149 | the server's key for the client's midnight string is that date (the string is the one built at front/script.js:210) |
| ClientDates.DateOnlyFromYear100 | front/script.js:205-211 | from year 100 on, the conversion is the date followed by `T00:00:00.000Z` |
| ClientDates.DateOnlyRoundTrip | front/script.js:205-211 | from year 100 on, the posted timestamp passes validation and the server's key is the date picked (validation at server.go:143-149) |
| ClientDates.TwoDigitYearShifted | front/script.js:207-210 | as written, 0050-01-01 is posted as 1950-01-01 and keyed 1950-01-01 |
| ClientDates.IntendedRoundTrip | front/script.js:205-211 | the intended conversion gives the date at UTC midnight and round-trips through validation for every date (validation at server.go:143-149) |
| ClientDownload.RunEnd | front/script.js:138 | a greedy character-class run ends at the first character outside the class |
| ClientDownload.FilenameCapture | front/script.js:138 | a captured file name is non-empty and holds no quote (the same regex at front/script.js:246) |
| ClientDownload.NatText | front/script.js:126 | a status code is written as a non-empty run of digits whose value is the code, with no leading zero (also front/script.js:232) |
| ClientDownload.HttpMatchFrom | front/script.js:176 | a match of the HTTP regex yields a non-empty word and a non-empty digit run |
| ClientDownload.ServerContentTypes | front/script.js:133 | the server's `application/zip` is accepted; `application/json; charset=utf-8` is refused (checks at front/script.js:133 and 236; types set at server.go:121 and 192) |
| ClientDownload.FilenameOfHeader | front/script.js:138 | a quoted or bare `filename=` value without quotes is captured whole (the same regex at front/script.js:246) |
| ClientDownload.ServerDispositionNames | front/script.js:137-140 | with the server's bare `attachment`, files are saved as `preprod-<node>-files.zip` and `scan-files.zip` (likewise front/script.js:245-248; header set at server.go:193) |
| ClientDownload.FirstExtensionOnly | front/script.js:139 | `x.zip` saves as base `x`, and `x.tar.gz` as `x.gz`: only the first extension goes |
| ClientDownload.ExtensionInsideName | front/script.js:139 | the extension search is unanchored: `app.gzip.log` gives `appip.log` |
| ClientDownload.StripZipSuffixOnly | front/script.js:247 | a final `.zip`, in any case, is removed; a name without one is left alone |
| ClientDownload.HttpMessageParsed | front/script.js:126-179 | from a node's error-status message, the regex reads back the node name and status code |
| ClientDownload.NodeHttpErrorReported | front/script.js:124-181 | a single node answering an error status is reported with its name and status code, provided the thrown message does not contain "Failed to fetch" |
| ClientDownload.EmptyServerReplyIsNotZip | front/script.js:130-183 | a 2xx reply typed as JSON is reported as not a ZIP archive |
| ClientDownload.NetworkFailureReported | front/script.js:173-174 | a fetch failing with "Failed to fetch" is reported as a network error, for every node name `NODES[node]` resolves, an inherited one such as `constructor` included |
| ClientDownload.InheritedNameIsFetched | front/script.js:112-151 | a node name inherited from Object.prototype (such as `constructor`) is not reported as unknown: its task fetches, and a 2xx zip reply is saved under a name built from it |
| ClientDownload.UnknownNodeReported | front/script.js:112-185 | a node name that is neither an own key of NODES nor a name inherited from Object.prototype, made of lower-case letters and digits, is reported as a configuration error with the thrown message (a name such as `HTTP` that the HTTP regex matches is not covered) |
| ClientDownload.MultipleOutcomeCases | front/script.js:111-188 | all archives are saved, under their derived names, exactly when every node's task succeeds, and then every node name is one `NODES[node]` resolves; a failure never reports a timeout |
| ClientDownload.ScanOutcomeCases | front/script.js:230-272 | the scanner download reports a timeout, an empty body, a saved name, or an error status cut to 100 characters |

## Left out

- HTTP plumbing is not modelled: `main`, routing, `http.Error`, header writes and the
  1 MiB `MaxBytesReader`. The model keeps only the outcome or the error kind, plus the
  status codes and the messages given to `http.Error`, which sends each followed by a
  newline.
- `init`, `getEnv` and `Config` are startup wiring with no logic beyond a default lookup,
  so they are left out.
- `catalinalog` is not modelled: its fixed `/var/log` and `auth.log` and its console
  printing are wiring. The stub handlers `universelog`, `alltomcatlog` and `scanerslog`
  are empty, so they are left out too.
- `encoding/json` is abstracted into a decode outcome: a timestamp, or a decode error.
  `dec.More()` becomes a flag.
- The real filesystem is replaced by an immutable tree. Symlinks, permissions other than
  readability, and changes during the walk are not modelled. `os.ReadDir` and
  `filepath.Walk` are taken to list entries in the tree's stored order.
- FileFinder.FindFilesFound and Archive.AddDirToZip require sibling names in a directory
  to be distinct, as they are on a real filesystem.
- The zip byte format, Deflate compression and file contents are not modelled. A member
  is its name and method, and a file's content is its size.
- Archive.AddFileToZip: write errors on the response itself are not modelled. When the
  client goes away, `CreateHeader` or `io.Copy` fails and the handler answers 500 and
  stops. The model's writer never fails, so success depends only on the file.
- The bytes on the wire after a failure are not modelled. `zip.NewWriter` and Deflate
  buffer their output, so a failure before any flush reaches the client as a plain 500
  text reply with no zip bytes. A failure after a flush comes after a 200 status that is
  already sent, and the client gets a truncated archive followed by the text. The
  `written` members of Archive.Reply are the writer's member list in both cases.
- Timestamps.ParseRFC3339 follows the strict RFC 3339 path of Go's `time.Parse`. The
  leniencies of Go's general layout parser and years beyond 9999 are not modelled.
- Modification times are integers in nanoseconds since the epoch, which is Go's
  `time.Time` precision. Time zones beyond the offset written in a timestamp and UTC
  midnight are not modelled.
- Strings.StringContains works on characters, not bytes. For valid UTF-8 text both give
  the same answer, because UTF-8 is self-synchronising.
- The client's DOM updates, buttons, download anchors, `fetch` itself and the
  `AbortController` timer are left out. A fetch is a parameter: a reply, or a rejection
  with an error name and message.
- The first definition of `postAndDownloadMultiple` (front/script.js:30-100) is replaced
  by the later one in the same file before it can run, so only the later one is modelled.
- ClientDownload.NodeDownload: for a node name inherited from Object.prototype the URL
  the task fetches (the text of a function followed by the endpoint) is not built; as
  for every node, what the fetch gives is a parameter.
- ClientDownload.MultipleOutcome: the success status text is not built. The outcome
  carries the saved names, one per node.
- ClientDownload.IsSpace covers the ASCII white space and the no-break space, not every
  Unicode space that `\s` matches.
- ClientDownload.Slice100 counts code points, where JavaScript counts UTF-16 units. The
  two differ only for characters outside the Basic Multilingual Plane.
- The text "Failed to fetch" is one browser's network-error message. Which browser sends
  which message is not modelled.
- ClientDates.ToRFC3339DateOnly takes the value of a date field that is a valid
  `YYYY-MM-DD` with a four-digit year. Browsers also give years above 9999 (such as
  `10000-01-01`); those are not modelled. Other strings that `split('-').map(Number)` would accept are not
  modelled.

## Findings

| source | as written | input that shows it | evidently intended | confidence | as-written member | corrected member |
|---|---|---|---|---|---|---|
| front/script.js:207-208 | `Date.UTC(year, month - 1, day)` treats a year from 0 to 99 as 1900 + year | the date field value `0050-01-01` is posted as `1950-01-01T00:00:00.000Z`, so the server searches 1950-01-01 | the same date at UTC midnight for every four-digit year, so the server's key is the date picked | not executed | ClientDates.TwoDigitYearShifted | ClientDates.IntendedRoundTrip |
