# wpsync reconciliation engine in Dafny

wpsync publishes a directory of markdown files to a WordPress site and keeps a JSON
manifest (`posts.json`, `pages.json`, `media.json`) of what it has sent. This project
models the part of wpsync that decides and records:

- the **change classifier** (`comparePosts`, `comparePages`, `compareMedia`), a
  nested-loop join of the local files against the manifest on the file name: a file
  with no record is new, a post or page whose modification time is strictly after its
  record's sync time is stale and takes the record's remote id, and media are skipped
  as soon as any record has their name;
- the **front-matter parser** (`readParseFile`, `readParsePageFile`), a line-by-line
  walk with a counter of `---` lines seen, in which `key: value` lines between the
  first two delimiters set fixed fields and the lines after the second delimiter are
  the body;
- the **create/update drivers** (`createPosts`, `updatePosts`, `createPages`,
  `updatePages`, `uploadMediaItems`, and `loadPostFromFile` / `loadPageFromFile`),
  filter-and-stamp loops that keep the confirmed items whose API call succeeded;
- the **manifest merge** (`writeRemotePosts`, `writeRemotePages`, `writeRemoteMedia`),
  which writes nothing when there is nothing new, and otherwise copies each update's
  sync time onto the existing records of its file and appends the new records;
- the **older revision** in `io.go` of the classifier, the in-place upload loops, the
  merge and the parser, in a module of its own (`Legacy`).

Modules:

- `Wrappers` holds `Option`.
- `GoStrings`, `GoStrconv` and `GoTime` model the few Go library functions the parser
  relies on:
  - `strings.TrimSpace`, `strings.Trim` with a one-character cut set, `strings.Index`,
    `strings.Split`, `strings.Join`;
  - `strconv.Atoi` with its error dropped, and `strconv.Itoa`;
  - validity of the layout `2006-01-02`, the RFC 3339 text of a parsed date, and its
    Unix time.
- `FrontMatter` holds what the three parsers share: the delimiter scan, the header and
  body lines, the `key: value` split, and the "last line of a key wins" lemmas.
- `Posts`, `Pages`, `MediaSync` and `Legacy` follow `posts.go`, `pages.go`, `media.go`
  and `io.go`.

Every loop of the Go code is a Dafny `method` with a `while` loop. Its `ensures` ties
the result to a specification function (`NewPosts`, `StalePosts`, `ParsedPost`,
`Created`, `Manifest`, …), and the properties are lemmas about those functions. The two
in-place loops of `io.go` work on an `array`.

The world outside the engine is passed in as parameters:

- `confirm` is the answer to the prompt.
- `create` and `update` are the API calls. `None` is a transport error or a status
  above 299.
- `upload` is the media upload call. It is a total function, as the call at
  media.go:66 takes a single result; in the older revision `uploadPost` and
  `uploadMedia` have no failure result either.
- `render` is the markdown renderer.
- `files` maps a file name to its text.
- `now` and `nowText` are the clock reading.
- `existing` is the manifest as read back from disk.

Times are integers (Unix seconds); `After` is strict `>`.

Where the code and the prose description of wpsync differ, the model follows the code:

- `strings.Trim(value, "\"")` removes every leading and trailing `"`, not one layer of
  quotes (`GoStrings.TrimChar`).
- Posts recognise `title`, `date`, `category`, `tags` and `status`; pages recognise
  `title`, `template`, `parent`, `status` and `order`. Neither recognises the other's
  keys.
- The body after an unclosed block is the whole text, delimiters and header lines
  included. So is the body when the closing delimiter is the file's last line, since
  the loop only cuts `lines` at the line after that delimiter (`FrontMatter.ScanEnd`).
- A failed create or update is left out of the result, and nothing is reported to
  the caller. `createPosts` does not even log it; `createPages` logs it as a debug
  message, `updatePosts` and `updatePages` as a warning.
- The older parser stores an unparseable date as Go's zero time rather than keeping
  the previous value.
- An update keeps the record the server answered, stamped with the sync time. The
  manifest merge then copies only that sync time onto the old record, so the old
  record's id survives in the manifest.

## Model

| member | source | states |
|---|---|---|
| Posts.ComparePosts | posts.go:56-78 | the nested flag loops return exactly `NewPosts` (local posts with no record of their file, local order) and `StalePosts` (each post changed strictly after a record of its file, with that record's id) |
| Posts.ScanSnoc | posts.go:59-72 | one more record scanned by the inner loop sets the flag exactly on a same-file record, and adds the post with the record's id exactly when the post changed strictly after that record's sync |
| Posts.NewPostsMembers | posts.go:57-76 | a post is in the new list if and only if it is local and no record has its file name |
| Posts.StaleForMembers | posts.go:59-71 | the update candidates of one post are exactly that post with the id of each record of its file synced strictly before the post changed |
| Posts.StaleForUnknown | posts.go:59-75 | a post no record knows is never an update candidate |
| Posts.StaleForUnique | posts.go:60-70 | with one record per file, a known post is an update candidate exactly when its mod time is strictly after the record's sync time (equal or earlier: neither list), and then carries the record's id |
| Posts.StalePostsMembers | posts.go:57-77 | a post is in the update list if and only if it is a local post with the id of a record of its file that it changed after |
| Posts.UnchangedPostsMembers | posts.go:57-76 | the posts in neither list are exactly the known posts that are not stale |
| Posts.NewAndStaleDisjoint | posts.go:57-76 | no file is both in the new list and in the update list |
| Posts.ClassifierPartition | posts.go:57-76 | with one record per file, the new, stale and unchanged posts together count the local posts exactly once |
| Posts.ClassifierConcat | posts.go:57-76 | both lists of `a + b` are those of `a` followed by those of `b`, so both keep local order |
| Posts.FirstRun | posts.go:57-76 | against an empty manifest every local post is new, in order, and none is stale |
| Posts.ReadParseFile | posts.go:164-226 | the counter-driven line loop returns exactly `ParsedPost` of the file text |
| Posts.ScannedPostNext | posts.go:184-209 | one loop step: a trimmed line read while the counter is one applies its key and value, if it has a pair; any other line leaves the post as it was |
| Posts.ScannedPostResult | posts.go:210-223 | where the loop leaves off, the post it holds with the remaining lines joined and rendered is the parsed post |
| Posts.HeaderFields | posts.go:189-208 | each recognised field takes the value of its last header line; the date takes the last value that is a valid `2006-01-02` date, in RFC 3339; nothing else changes |
| Posts.ParsedPostIdentity | posts.go:167-174 | parsing never sets the id, link, file name or times |
| Posts.ParsedPostDefaults | posts.go:167-174 | a field no header line sets keeps its default: status `publish`, the current date, and empty title, category and tags |
| Posts.ParsedPostLayout | posts.go:182-223 | a file laid out as lines, a `---` block and a body parses to the defaults overridden by the block's lines, with the rendered body lines; lines before the block and key lines outside it are ignored |
| Posts.ParsedPostWithoutFrontMatter | posts.go:182-223 | a text with no delimiter line has every field at its default and the rendered text as its content |
| Posts.TitleStatusRoundTrip | posts.go:184-223 | a block with a quoted `title` line and a bare `status` line parses back to that title and status, with default date, category and tags and the rendered body |
| Posts.TitleLine | posts.go:189-196 | a quoted title line is no delimiter, is one line, and parses to the `title` key with its value |
| Posts.StatusLine | posts.go:189-207 | a bare status line is no delimiter, is one line, and parses to the `status` key with its value |
| Posts.StatusParam | posts.go:206-207 | a `status` pair sets the status and nothing else |
| Posts.LoadPostFromFile | posts.go:105-109 | returns exactly `LoadedPost`: the parsed file with its empty fields filled from the classified post |
| Posts.LoadedPostIdentity | posts.go:105-109 | a loaded post keeps the classified post's file name, id, link and times, and takes title and content from the file unless the file left them empty |
| Posts.LoadPostsFromFiles | posts.go:97-103 | the loop returns every post loaded, in order |
| Posts.LoadedPostsNext | posts.go:98-101 | one loop step appends the loaded form of the next post |
| Posts.LoadedPostsFiles | posts.go:97-103 | loading keeps the number of posts and each post's file name |
| Posts.CreatePosts | posts.go:82-95 | the loop returns exactly `Created`: the confirmed posts whose create call succeeded, as answered, with their file name and the sync time |
| Posts.CreatedMembers | posts.go:82-95 | a record is created if and only if it is the answer for a confirmed post whose call succeeded, with that post's file name and the sync time |
| Posts.CreatedConcat | posts.go:83-93 | the records created from `a + b` are those from `a` followed by those from `b` (input order) |
| Posts.CreatedAllSucceed | posts_test.go:47-58 | when all posts are confirmed and succeed, record k is the answer for post k, so the status the server answered (`draft` or `publish`) is kept |
| Posts.CreatedDropsFailure | posts.go:84-91 | with distinct file names, a declined post or a failed call leaves no record of its file |
| Posts.UpdatePosts | posts.go:113-128 | the loop returns exactly `Updated`: the confirmed posts whose update call succeeded, as answered, with the sync time |
| Posts.UpdatedMembers | posts.go:113-128 | a record is updated if and only if it is the answer for a confirmed post whose call succeeded, with the sync time |
| Posts.UpdatedConcat | posts.go:114-126 | the updates of `a + b` are those of `a` followed by those of `b` |
| Posts.UpdatedAllSucceed | posts_test.go:89-97 | when all posts are confirmed and succeed, update k is the answer for post k with sync time `now`; the last clause only spells out the test's check that the new sync time is not before the earlier one, given that the clock did not go back |
| Posts.UpdatedKeepsFiles | posts.go:113-128 | when every call succeeds and keeps the file name, the updates keep the files one for one, all stamped `now` |
| Posts.WriteRemotePosts | posts.go:131-147 | nothing is written exactly when both lists are empty; otherwise the manifest is the existing records followed by the new posts, its length is the sum, and each existing record changes at most in its sync time |
| Posts.MergeTakesSyncDate | posts.go:140-146 | with distinct updated files, an existing record of an updated file gets exactly that update's sync time and keeps every other field |
| Posts.MergeKeepsOthers | posts.go:140-146 | an existing record no update matches is carried over unchanged |
| Posts.NoNewPosts | posts.go:57-76 | nothing is new against a manifest with a record of every local file |
| Posts.NoStalePosts | posts.go:59-71 | nothing is stale against a manifest with no record of a local file synced before the file changed |
| Posts.NewFilesCreated | posts.go:82-95 | when all creates succeed, every file without a record gets a created record, stamped `now` |
| Posts.StaleFilesUpdated | posts.go:113-128 | when all updates succeed and keep their file, every record synced before its file changed gets an update of that file, stamped `now` |
| Posts.StaleCandidate | posts.go:63-67 | a local post changed since a record of its file is an update candidate under that record's id |
| Posts.ManifestRecordsAll | posts.go:140-147 | the merged manifest has a record of every file that had one or was created |
| Posts.ManifestSynced | posts.go:140-147 | in the merged manifest no record of a local file is older than the file, when everything written carries `now` and every stale record was updated |
| Posts.RunRecordsEveryFile | wpsync.go:117-126 | after a run in which every create succeeded, no local file is new |
| Posts.RunSyncsEveryFile | wpsync.go:117-126 | after a run in which every call succeeded and no file changed after `now`, no local file is stale |
| Posts.SecondRunIsQuiet | wpsync.go:117-126 | under those conditions a second run over the same files creates and updates nothing |
| Pages.ComparePages | pages.go:58-80 | the nested flag loops return exactly `NewPages` and `StalePages`, the same partition rule as for posts |
| Pages.ScanSnoc | pages.go:61-74 | one more record scanned sets the flag exactly on a same-file record and adds the page with its id exactly when the page changed after it |
| Pages.NewPagesMembers | pages.go:59-78 | a page is new if and only if it is local and no record has its file name |
| Pages.StaleForMembers | pages.go:61-73 | the update candidates of one page are that page with the id of each record of its file synced before it changed |
| Pages.StaleForUnknown | pages.go:61-77 | a page no record knows is never an update candidate |
| Pages.StaleForUnique | pages.go:62-72 | with one record per file, a known page is a candidate exactly when its mod time is strictly after the record's sync time, and then has the record's id |
| Pages.StalePagesMembers | pages.go:59-79 | a page is in the update list if and only if it is a local page with the id of a record of its file that it changed after |
| Pages.NewAndStaleDisjoint | pages.go:59-78 | no file is both new and updated |
| Pages.ClassifierConcat | pages.go:59-78 | both lists of `a + b` are those of `a` followed by those of `b` (local order) |
| Pages.ReadParsePageFile | pages.go:168-226 | the counter-driven line loop returns exactly `ParsedPage` of the file text |
| Pages.ScannedPageNext | pages.go:187-209 | one loop step applies a trimmed line's pair while the counter is one, and otherwise changes nothing |
| Pages.ScannedPageResult | pages.go:210-223 | where the loop leaves off, the page with the remaining lines rendered is the parsed page |
| Pages.HeaderFields | pages.go:192-208 | title, template, status and order take their last header line's value, the parent its last value through `Atoi`; date, category, tags and other keys change nothing |
| Pages.OtherKeyIgnored | pages.go:197-208 | a line whose key is none of the five recognised ones changes nothing |
| Pages.ParsedPageDefaults | pages.go:171-177 | a field no header line sets keeps its default: status `publish`, parent 0, empty title, template and order |
| Pages.NonNumericParent | pages.go:202-203 | a `parent` value that is not a decimal number gives parent 0 |
| Pages.DecimalParent | pages.go:202-203 | a `parent` value written in decimal is read back as that number |
| Pages.ParsedPageLayout | pages.go:185-223 | a `---` block followed by a body parses to the defaults overridden by the block's lines, with the rendered body lines |
| Pages.ParsedPageWithoutFrontMatter | pages.go:185-223 | a text with no delimiter line has default fields and the rendered text as its content |
| Pages.LoadPageFromFile | pages.go:109-113 | returns exactly `LoadedPage`: the parsed file with empty fields filled from the classified page |
| Pages.LoadedPageIdentity | pages.go:109-113 | a loaded page keeps the classified page's file name, id, link and times, and takes its content fields from the file unless empty there |
| Pages.LoadPagesFromFiles | pages.go:101-107 | the loop returns every page loaded, in order |
| Pages.LoadedPagesNext | pages.go:102-105 | one loop step appends the loaded form of the next page |
| Pages.CreatePages | pages.go:84-99 | the loop returns exactly `Created`: confirmed pages whose create succeeded, with their file name and the sync time |
| Pages.CreatedMembers | pages.go:84-99 | a record is created if and only if it answers a confirmed page whose call succeeded, with its file name and the sync time |
| Pages.CreatedConcat | pages.go:85-97 | the records created from `a + b` are those from `a` followed by those from `b` |
| Pages.CreatedDropsFailure | pages.go:86-95 | with distinct file names, a declined page or a failed create leaves no record of its file |
| Pages.UpdatePages | pages.go:117-132 | the loop returns exactly `Updated`: confirmed pages whose update succeeded, stamped with the sync time |
| Pages.UpdatedMembers | pages.go:117-132 | a record is updated if and only if it answers a confirmed page whose call succeeded, with the sync time |
| Pages.UpdatedConcat | pages.go:118-130 | the updates of `a + b` are those of `a` followed by those of `b` |
| Pages.WriteRemotePages | pages.go:135-151 | nothing is written exactly when both lists are empty; otherwise existing records (changed at most in sync time) followed by the new pages |
| Pages.MergeTakesSyncDate | pages.go:144-150 | with distinct updated files, an existing record of an updated file takes exactly that update's sync time and keeps every other field |
| MediaSync.CompareMedia | media.go:47-61 | the nested flag loops return exactly `NewMedia`, the local items no record has the name of |
| MediaSync.KnownSnoc | media.go:50-55 | one more record scanned sets the flag exactly when it has the item's file name |
| MediaSync.NewMediaMembers | media.go:47-61 | an item is kept if and only if it is local and no record has its name; times, ids and links play no part |
| MediaSync.NewMediaConcat | media.go:48-59 | the items kept from `a + b` are those from `a` followed by those from `b` (local order) |
| MediaSync.FirstMediaRun | media.go:47-61 | against an empty manifest every item is new, in order |
| MediaSync.NoNewMedia | media.go:50-58 | nothing is new against a manifest with a record of every local file |
| MediaSync.UploadMediaItems | media.go:63-73 | the loop returns exactly `Uploaded`: the answers for the confirmed items, each with its item's file name |
| MediaSync.UploadedMembers | media.go:63-73 | a record is uploaded if and only if it answers a confirmed item, with that item's file name |
| MediaSync.UploadedConcat | media.go:64-71 | the uploads of `a + b` are those of `a` followed by those of `b` |
| MediaSync.UploadedAllConfirmed | media.go:63-73 | when every item is confirmed, upload k is the answer for item k with its file name |
| MediaSync.DeclinedNotUploaded | media.go:65-70 | a file all of whose items were declined has no uploaded record |
| MediaSync.WriteRemoteMedia | media.go:76-86 | nothing is written exactly for an empty list; otherwise the existing records unchanged followed by the new ones |
| MediaSync.ManifestKeepsKnown | media.go:82-83 | a file known before the merge is known after it |
| MediaSync.SecondMediaRunIsQuiet | wpsync.go:140-147 | when every prompt is confirmed, a second run over the same files uploads nothing |
| Legacy.ComparePosts | io.go:43-57 | the flag loops return exactly the local posts with no record of their file, with no time test and no update list |
| Legacy.ChangedPostsNotResent | io.go:44-55 | a post with a record is never sent again, however recently it changed |
| Legacy.CompareMedia | io.go:124-138 | the flag loops return exactly the local items no record has the name of |
| Legacy.UploadPosts | io.go:61-68 | the array afterwards is `UploadedPosts` of its old contents: every post uploaded by file name, in place |
| Legacy.UploadedPostsSpec | io.go:61-68 | same length; position k gets the id and link answered for post k's file, every other field unchanged |
| Legacy.UploadMediaItems | io.go:140-147 | the array afterwards is `UploadedItems` of its old contents: every item uploaded, in place |
| Legacy.UploadedItemsSpec | io.go:140-147 | same length; position k gets the id and page link answered for item k, every other field unchanged |
| Legacy.WriteRemotePostsAsWritten | io.go:71-82 | nothing is written exactly for an empty list; otherwise only the new posts are written, the appended list being discarded |
| Legacy.WriteRemotePosts | io.go:71-82 | corrected merge: nothing for an empty list, otherwise the existing records followed by the new posts |
| Legacy.SecondRunIsQuiet | io.go:43-93 | with the corrected merge a second run over the same files sends nothing |
| Legacy.SecondRunResendsAsWritten | io.go:78-82 | with the merge as written, `a.md` having a record and `b.md` being new, the next run sends `a.md` again |
| Legacy.NewPostsPair | io.go:43-57 | the classifier on two posts keeps each one exactly when it has no record |
| Legacy.WriteRemoteMediaAsWritten | io.go:150-161 | nothing is written exactly for an empty list; otherwise only the new items are written |
| Legacy.MediaWriteDropsRecords | io.go:157-161 | the as-written merge loses an earlier record that the current merge keeps |
| Legacy.ReadParseFile | io.go:175-232 | the counter-driven line loop returns exactly `ParsedPage` of the file text |
| Legacy.ScannedNext | io.go:195-217 | one loop step applies a trimmed line's pair while the counter is one, and otherwise changes nothing |
| Legacy.ScannedResult | io.go:218-230 | where the loop leaves off, the page with the remaining lines joined is the parsed page |
| Legacy.HeaderFields | io.go:200-216 | each recognised field takes its last header line's value, and the date the last `date` value parsed, or the zero time when that value is no date |
| Legacy.LineFields | io.go:200-216 | one line sets the field of its key, if recognised, and nothing else |
| Legacy.DateOfSnoc | io.go:208-209 | a later `date` line replaces the date by its parse, or by the zero time |
| Legacy.InvalidDateIsZero | io.go:208-209 | a last `date` value that is no calendar date leaves the zero time, not the default |
| Legacy.PageWithoutFrontMatter | io.go:229-230 | a text with no delimiter line has default fields and exactly the text, unrendered, as content |
| Legacy.ParsedPageLayout | io.go:193-230 | a `---` block followed by a body parses to the defaults overridden by the block, with the body lines joined unrendered |
| FrontMatter.NextDelimiter | posts.go:216-218 | the next delimiter line at or after a position, with none in between |
| FrontMatter.ParamOfShape | posts.go:189-193 | a trimmed line carries a pair exactly when it has a colon after its first character; the key holds no colon and the value neither starts nor ends with `"` |
| FrontMatter.ParamOfKeyed | posts.go:189-193 | a key, a colon and a rest give that key and the rest trimmed of white space and then of quotes |
| FrontMatter.ParamOfQuoted | posts.go:189-193 | a `key: "value"` line parses back to its key and value |
| FrontMatter.ParamOfBare | posts.go:189-193 | a `key: value` line whose value has no white space or `"` at its ends parses back to its key and value |
| FrontMatter.DelimiterHasNoPair | posts.go:187-218 | a delimiter line never carries a pair |
| FrontMatter.LastIndex | posts.go:194-208 | the position of the last line that satisfies a test, or -1 |
| FrontMatter.LastValueSnoc | posts.go:194-208 | a later line with the key replaces its value; any other line leaves it |
| FrontMatter.LastCalendarDate | posts.go:197-201 | a date kept from the header is always a valid calendar date |
| FrontMatter.LastCalendarDateSnoc | posts.go:197-201 | a later valid date replaces the kept one; an invalid one is passed over |
| FrontMatter.ScanCount | posts.go:216-218 | the counter grows exactly at a delimiter line and reaches two only at the closing one |
| FrontMatter.ScanStep | posts.go:187-209 | while the counter is one, every non-delimiter line joins the header |
| FrontMatter.ScanPast | posts.go:210-213 | past the closing delimiter the scan neither counts nor collects |
| FrontMatter.ScanEnd | posts.go:210-222 | where the loop ends it holds the whole header; after the closing delimiter the rest is the body, and running off the end the whole text is |
| FrontMatter.ScannedHeader | posts.go:184-219 | what the loop holds is the defaults with the header lines seen so far applied in order |
| FrontMatter.ApplyLinesSnoc | posts.go:194-208 | a later header line is applied after the earlier ones |
| FrontMatter.ApplyLinesPair | posts.go:194-208 | two header lines are applied first to last |
| FrontMatter.BlockLayout | posts.go:184-222 | for lines made of a prefix, a block and a body, the header is the block's lines and the body is the lines after it |
| FrontMatter.BlockDelimiters | posts.go:216-218 | in that layout the first two delimiters are the block's |
| FrontMatter.BlockText | posts.go:182-222 | the same layout written as text splits back into the block's header and the body lines |
| FrontMatter.NoBlockLayout | posts.go:210-222 | lines with no delimiter have no header, and all of them are body |
| FrontMatter.QuotedLineShape | posts.go:216 | a quoted line is not a delimiter and is one line |
| FrontMatter.BareLineShape | posts.go:216 | a bare line is not a delimiter and is one line |
| GoStrings.TrimSpace | posts.go:185 | the trimmed line neither starts nor ends with white space |
| GoStrings.TrimSpaceInfix | posts.go:185 | what is kept is an infix of the line, and only white space is cut on either side |
| GoStrings.TrimChar | posts.go:193 | the value neither starts nor ends with `"`: all quotes are stripped, not one layer |
| GoStrings.TrimCharInfix | posts.go:193 | what is kept is an infix of the value, and only `"` is cut on either side |
| GoStrings.TrimCharWrapped | posts.go:193 | a value wrapped in one quote on each side loses exactly the wrapping |
| GoStrings.IndexOf | posts.go:189-190 | the first position of the colon, or -1 exactly when there is none |
| GoStrings.IndexOfAfter | posts.go:189 | the colon after a colon-free key is found right after it |
| GoStrings.Split | posts.go:182 | the lines of a text: at least one, none holding a line break |
| GoStrings.JoinSplit | posts.go:182-222 | joining the lines of a split gives back the text, so a file without front matter keeps its whole text as the body |
| GoStrings.SplitJoin | posts.go:182-222 | splitting a join of single lines gives back those lines |
| GoStrings.SplitAfterPrefix | posts.go:182 | a line followed by a line break is the first line of the split |
| GoStrconv.Atoi | pages.go:203 | the parent read with the error dropped lies in the int64 range |
| GoStrconv.AtoiSyntaxError | pages.go:203 | a parent value with no digit after its sign, or a non-digit before it overflows, is read as 0 |
| GoStrconv.AtoiItoa | pages.go:203 | every int64 written in decimal is read back |
| GoTime.DateRFC3339 | posts.go:198-200 | the RFC 3339 text of a parsed date starts with the date itself, in 20 characters |
| GoTime.FirstDayIsZeroTime | io.go:209 | `0001-01-01` is a valid date that parses to Go's zero time, the same value a failed parse gives |

## Left out

- Directory listing, file reading, JSON decoding and encoding, and the manifest file
  write (`getLocal*`, `getRemote*`, `ioutil.ReadFile`, `json.Marshal`,
  `ioutil.WriteFile`). The model takes their results as sequences and text, and the
  merge returns the manifest it would write.
- I/O errors. With `log.Warn` the read goes on with empty text; `log.Fatal` ends the
  program. The model always has the file text.
- The HTTP calls into the WordPress API (api.go) and the token handshake (auth.go). The
  create and update calls are the `create` and `update` oracles, with `None` for a
  transport error or a status above 299.
- The confirmation prompt, which reads standard input. It is the `confirm` oracle, which
  is always true when confirmation is off.
- `blackfriday.Run`, the markdown renderer. It is the uninterpreted `render`.
- `time.Now`. The drivers read the clock once per item; the model takes one `now` (and
  its RFC 3339 text `nowText`) for the whole run. With one reading per item, the
  results could differ in their stamps.
- Go's `time.Time` beyond seconds: time zones, monotonic readings, sub-second precision.
  Times are integers, and the `2006-01-02` layout is a calendar-validity predicate.
- `mergo.Merge`, which is modelled only as "an empty string field or a zero number or
  time of the parsed record takes the classified record's value" (`MergeZero`).
- Posts.MergeZero, Pages.MergeZero: taking a zero `ModDate` or `SyncDate` from the
  classified record is an assumption, since the mergo library is not part of this
  model and whether it fills a zero `time.Time` (a struct with no exported field)
  depends on its version. Only `Posts.LoadedPostIdentity` and
  `Pages.LoadedPageIdentity` rely on it. Nothing written depends on it, because
  `ModDate` is not serialised (wpsync.go:33) and `SyncDate` is overwritten after the
  API call.
- Logging to the console (logger.go, and `fmt.Println` in io.go).
- Flag parsing, configuration loading and `main` (wpsync.go). The model only composes
  the posts and media sequences of `main` into one run.
- read.go, which fetches content over HTTP and prints it.
- Go's `int` width. Ids and the parent id are unbounded integers, and `Atoi` clamps to
  the int64 range, as Go's does on a range error.
- A failed media upload. api.go:140-151 declares `uploadMedia` with an error result
  (a transport error or a status above 299), but media.go:66 calls it with a single
  result, so the two files come from different revisions. The model follows
  media.go:66 and takes `upload` as a total function; what `uploadMediaItems` would do
  with a failed upload is not modelled.
- Pages have no end-to-end run lemmas. `main` does not reconcile pages, so only the page
  classifier, parser, drivers and merge are modelled.

## Findings

| source | as written | input that shows it | evidently intended | confidence | as-written member | corrected member |
|---|---|---|---|---|---|---|
| io.go:78-82 | `writeRemotePosts` appends the new posts to the existing manifest, then encodes only `posts`, so every earlier record is dropped from `posts.json` | manifest holds `a.md`; `b.md` is new; after the run the manifest holds only `b.md`, so the next run sends `a.md` again | encode the appended list, as posts.go:150 does | not executed | Legacy.WriteRemotePostsAsWritten, Legacy.SecondRunResendsAsWritten | Legacy.WriteRemotePosts, Legacy.SecondRunIsQuiet |
| io.go:157-161 | `writeRemoteMedia` appends the new items to the existing manifest, then encodes only `media`, so earlier media records are dropped | manifest holds `e`; item `m` with another file name is uploaded; the manifest written is `[m]`, and `e` is no longer known | encode the appended list, as media.go:86 does | not executed | Legacy.WriteRemoteMediaAsWritten, Legacy.MediaWriteDropsRecords | MediaSync.WriteRemoteMedia, MediaSync.SecondMediaRunIsQuiet |
