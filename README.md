# hicc core services, modelled in Dafny

hicc is a React Native client that searches a torrent index and sends the
result to AllDebrid, a debrid service. It then streams the video files that
AllDebrid unlocks. This project models the service layer and the unlock flow
of that client. It also models the poster catalogue service of the companion
desktop app (watchy). All of it is written as Dafny functions, classes and
lemmas.

- `js.dfy` (module `Js`): the JavaScript values the services share.
  - An optional property, and the settled value of a promise (a value or an
    Error's message).
  - An HTTP exchange: the parsed reply, or the exception axios threw.
  - The `||` and `??` idioms.
- `jsstring.dfy` (module `JsString`): the string built-ins the services call.
  - `trim` and the `\s` class, `lastIndexOf` and `split` on a
    one-character separator.
  - `toLowerCase` for the characters that map to ASCII letters.
  - `String(n)` of an integer.
- `seqs.dfy` (module `Seqs`): `Array.prototype.filter`.
- `alldebrid.dfy` (module `AllDebrid`): the AllDebrid client.
  - Magnet upload and the v4.1 status call.
  - Link extraction from a legacy v4 status reply.
  - Per-link unlocking, and the flattening of the v4.1 file tree.
  - `getMagnetFiles`: the v4.1 listing, with the legacy path as fallback.
  - `unlockLink`, and the video-extension filter.
- `unlockflow.dfy` (module `UnlockFlow`): the unlock screen's
  `unlockMagnet`.
  - It uploads the magnet. A magnet already cached is listed at once.
  - Otherwise the status is polled once per timer tick, up to 30 attempts.
  - The screen state is a class `UnlockSession`, whose methods update it the
    way the callbacks do. A pure `Run` over a sequence of ticks specifies the
    poll.
- `library.dfy` (module `Library`): the saved-searches and saved-magnets
  library. `LibraryService` holds the two stored lists as fields, and each
  operation reads, updates and writes them back.
- `scraper.dfy` (module `Scraper`): the apibay search.
  - Query sanitisation, and the search URL.
  - The "No results returned" sentinel.
  - The mapping of each listed torrent to a result with a magnet link.
- `posters.dfy` (module `Posters`): the poster catalogue.
  - `PostersService` holds the catalogue map and the loaded flag.
  - `LoadCatalog` runs the parsing loop over the downloaded text.
  - `GetPostersByImdbIds` answers a batch of IMDb ids with image URLs.

Everything the code does not decide itself is a parameter:
- Every HTTP reply, or the exception instead of it.
- The stored API key.
- Whether a storage write succeeds, and what storage holds.
- `Date.now()` and the ISO timestamp.
- `encodeURIComponent` and `decodeURIComponent`, which are partial (they
  throw).

Two behaviours of the code are worth knowing:
- `checkStatus` counts the attempt before calling the status endpoint. A
  status call or listing that throws inside the interval callback is never
  caught. That tick ends, the interval keeps running, and the counter can
  pass 30 without a timeout (`FailingStatusKeepsPolling`).
- Readiness is tested before the 30-attempt bound. A ready reply on the
  thirtieth attempt still lists the files.

## Model

| member | source | states |
|---|---|---|
| Js.OrElse | hicc/src/services/alldebrid.ts:50 | `a \|\| b` on an optional string: the value when it is truthy (present and non-empty), otherwise the fallback |
| JsString.TrimShape | reference/watchy/src/main/services/posters.js:23 | `trim` leaves no white space at either end, and it cuts off only white space, from both ends |
| JsString.TrimStartShape | hicc/src/services/scraper.ts:23 | Dropping leading white space leaves a suffix that does not start with white space; everything dropped is white space |
| JsString.TrimEndShape | hicc/src/services/scraper.ts:23 | Dropping trailing white space leaves a prefix that does not end in white space; everything dropped is white space |
| JsString.TrimOfTrimmed | hicc/src/services/scraper.ts:23 | `trim` leaves a string with no white space at its ends unchanged |
| JsString.TrimStartAppend | hicc/src/services/scraper.ts:23 | Leading white space in front of text is all that is dropped: what follows is kept as it is |
| JsString.TrimStartOfSpaces | hicc/src/services/scraper.ts:23 | Dropping leading white space in front of text leaves the text |
| JsString.TrimStartKeepsLast | hicc/src/services/scraper.ts:23 | A string ending in a non-space character keeps that character |
| JsString.LastIndexOf | reference/watchy/src/main/services/posters.js:27 | -1 when the character does not occur; otherwise a position holding it, with no occurrence after it |
| JsString.Split | reference/watchy/src/main/services/posters.js:20 | There is always at least one piece, and no piece contains the separator |
| JsString.JoinSplit | reference/watchy/src/main/services/posters.js:20 | Splitting loses nothing: joining the pieces with the separator gives the input back |
| JsString.Lower | hicc/src/services/alldebrid.ts:232 | Lower-casing keeps the length and maps each character on its own |
| JsString.ShowNat | hicc/src/services/alldebrid.ts:119 | `String(n)` of a natural number is a non-empty run of decimal digits ending in the digit of `n % 10` |
| JsString.ShowInjective | hicc/src/services/alldebrid.ts:119 | `String(a) === String(b)` exactly when `a == b` |
| JsString.ShowNatInjective | hicc/src/services/alldebrid.ts:119 | Different natural numbers have different decimal renderings |
| JsString.NegativeShowInjective | hicc/src/services/alldebrid.ts:119 | Different negative numbers have different renderings |
| JsString.ShowSign | hicc/src/services/alldebrid.ts:119 | A rendering starts with `-` exactly when the number is negative |
| Seqs.Filter | hicc/src/services/library.ts:60 | `filter` keeps exactly the elements satisfying the predicate (each kept one comes from the input, each satisfying one is kept) and never lengthens the list |
| Seqs.FilterAppend | hicc/src/services/library.ts:60 | Filtering distributes over concatenation, so the input order is kept |
| Seqs.FilterKeepsDistinct | hicc/src/services/library.ts:60 | Filtering never makes two elements share a key when none did before |
| Seqs.FilterKeepsAll | hicc/src/services/library.ts:60 | A list whose every element is kept is its own filtering |
| AllDebrid.MagnetErrorText | hicc/src/services/alldebrid.ts:50 | The per-magnet error message is never empty: message, else code, else "Magnet error" |
| AllDebrid.UploadMagnet | hicc/src/services/alldebrid.ts:36-73 | Succeeds exactly when there is a key, the request did not throw, and the first magnet entry has no error and a non-zero id. On success: that id; the name is `name \|\| filename \|\| 'Unknown'` (never empty); the hash is `hash \|\| ''`; ready exactly when `ready` is true. Every error the code raises itself has a non-empty message. No key gives "API Key not set", and a failed request gives its own message |
| AllDebrid.UploadMagnetErrorFirst | hicc/src/services/alldebrid.ts:47-51 | A per-magnet error wins over the id and the top-level status |
| AllDebrid.UploadInvalidIdSecond | hicc/src/services/alldebrid.ts:53-56 | A missing or zero id gives "Invalid magnet ID returned from AllDebrid", whatever the top-level status |
| AllDebrid.UploadStatusOnlyWithoutEntry | hicc/src/services/alldebrid.ts:67-72 | Without a magnet entry: the error message or "Failed to upload magnet" for a non-success status, "No magnet data in response" otherwise |
| AllDebrid.GetMagnetStatus | hicc/src/services/alldebrid.ts:75-101 | No key gives "API Key not set", and a failed request gives its own message. Success needs a key, a reply and status "success". Ready exactly when the status code is 4. Non-success gives the error message or "Failed to get status". For an array, the first element's id, hash, file name and code are returned; an empty array or an absent value throws. A single object is returned the same way |
| AllDebrid.StatusInfo | hicc/src/services/alldebrid.ts:94-100 | The entry's id, hash, file name and status code carried over; ready exactly when the code is 4 |
| AllDebrid.FindIndex | hicc/src/services/alldebrid.ts:119 | `find` by `String(x.id)`: -1 exactly when no entry matches, otherwise the first matching position |
| AllDebrid.LegacyEntry | hicc/src/services/alldebrid.ts:117-122 | Array shape: no entry exactly when no id renders as `String(id)`, otherwise an element of the array with that id. Object shape: the value under the key `String(id)`, when present. Any other shape: no entry |
| AllDebrid.ExtractLinksFromLegacyStatus | hicc/src/services/alldebrid.ts:116-125 | One link per link entry of the selected magnet, in order (the string itself or its `.link`); no entry or no `links` gives none |
| AllDebrid.LegacyListSelectsFirstMatchingId | hicc/src/services/alldebrid.ts:118-119 | In the array shape, the selected entry is the first whose id is the number itself or its decimal string; none exactly when no entry matches |
| AllDebrid.UnlockOne | hicc/src/services/alldebrid.ts:134-147 | A link yields a file exactly when the request did not throw, the reply is a success with a truthy `data.link`, and `decodeURIComponent(filename \|\| 'file')` does not throw. The file is the decoded name, `data.link` and `data.filesize` |
| AllDebrid.UnlockedFiles | hicc/src/services/alldebrid.ts:133-148 | At most one file per link, each with a non-empty direct link |
| AllDebrid.UnlockedFilesAppend | hicc/src/services/alldebrid.ts:133-148 | Links are handled independently and in order: the files of `a + b` are those of `a` then those of `b` |
| AllDebrid.UnlockedLinkIsKept | hicc/src/services/alldebrid.ts:133-148 | A link that unlocks contributes its file in its own place among the others |
| AllDebrid.FailedLinkIsSkipped | hicc/src/services/alldebrid.ts:145-147 | A link that fails (throws, no success, no link, undecodable name) is skipped without affecting the others |
| AllDebrid.SecondLinkFails | hicc/src/services/alldebrid.ts:133-148 | Of two links, one unlocking to a named file and one whose request throws, the result is that one file |
| AllDebrid.UnlockLinksToFiles | hicc/src/services/alldebrid.ts:128-150 | The loop collects exactly `UnlockedFiles(links)`; no key gives "API Key not set" |
| AllDebrid.UnlockLink | hicc/src/services/alldebrid.ts:214-227 | Succeeds exactly with a key and a success reply carrying `data`, and returns its `data.link`. A non-success reply gives the error message or "Failed to unlock link". No key gives "API Key not set", a failed request gives its own message, and a success reply without `data` throws the missing-property error |
| AllDebrid.FlattenNode | hicc/src/services/alldebrid.ts:181-189 | Every path a node contributes starts with the prefix, and every link is non-empty |
| AllDebrid.Flatten | hicc/src/services/alldebrid.ts:179-191 | Every flattened path starts with the prefix, and every link is non-empty |
| AllDebrid.FlattenAppend | hicc/src/services/alldebrid.ts:180 | Flattening distributes over sibling concatenation (depth first, in input order) |
| AllDebrid.FlattenUnderPrefix | hicc/src/services/alldebrid.ts:182 | Flattening under a prefix is flattening at the root with the prefix put in front of every path |
| AllDebrid.FlattenNodeUnderPrefix | hicc/src/services/alldebrid.ts:182 | The same for a single node |
| AllDebrid.DirectoryFlattening | hicc/src/services/alldebrid.ts:181-182 | A directory's files are its children's files with `name/` in front; a link on the directory node is ignored |
| AllDebrid.FlattenFlatList | hicc/src/services/alldebrid.ts:183-188 | A list of link-bearing leaves flattens to the same files, with their own names and sizes |
| AllDebrid.FlattenLength | hicc/src/services/alldebrid.ts:179-191 | One file per reachable link-bearing leaf, whatever the prefix |
| AllDebrid.FlattenNodeLength | hicc/src/services/alldebrid.ts:181-189 | The same for a single node |
| AllDebrid.ForestSizeBounds | hicc/src/services/alldebrid.ts:182 | A child is no larger than its forest, so the recursion of `flattenFiles` terminates |
| AllDebrid.FlattenFiles | hicc/src/services/alldebrid.ts:179-191 | The recursive push loop leaves the captured list followed by `Flatten(items, prefix)` |
| AllDebrid.ModernFiles | hicc/src/services/alldebrid.ts:169-202 | Both directions: a success reply whose first entry has no error and has a tree yields exactly that tree's flattening; any non-empty result comes from such a reply |
| AllDebrid.ModernFilesUseFirstEntryOnly | hicc/src/services/alldebrid.ts:193-198 | Magnet entries after the first never matter |
| AllDebrid.MagnetFiles | hicc/src/services/alldebrid.ts:152-212 | No key gives "API Key not set". An error comes only from a missing key, or from the legacy status call after v4.1 yielded nothing; every file has a non-empty link |
| AllDebrid.ModernResultWins | hicc/src/services/alldebrid.ts:193-202 | For a success reply whose first entry has no error and a tree with at least one file, the answer is that flattening, whatever the legacy and unlock replies |
| AllDebrid.LegacyFallback | hicc/src/services/alldebrid.ts:204-211 | When v4.1 throws, fails or yields nothing, the answer is the legacy path: its exception propagates, otherwise the unlocked files of the extracted links |
| AllDebrid.GetMagnetFiles | hicc/src/services/alldebrid.ts:152-212 | The method's outcome is `MagnetFiles` |
| AllDebrid.Extension | hicc/src/services/alldebrid.ts:232 | `split('.').pop()`: a suffix of the name with no dot in it, preceded by a dot unless it is the whole name; a name without a dot is its own extension |
| AllDebrid.IsVideoName | hicc/src/services/alldebrid.ts:232-233 | A name is a video exactly when its lower-cased extension is in the allow-list; the `ext &&` guard never changes the answer |
| AllDebrid.GetVideoFiles | hicc/src/services/alldebrid.ts:229-235 | Keeps exactly the files whose lower-cased, non-empty extension is mp4/mkv/avi/mov/wmv/webm, and no more files than given |
| AllDebrid.GetVideoFilesAppend | hicc/src/services/alldebrid.ts:231 | The filter keeps the input order |
| AllDebrid.TrailingDotIsNotVideo | hicc/src/services/alldebrid.ts:233 | A name ending in a dot has an empty extension and is never a video |
| AllDebrid.DotlessNameComparedWhole | hicc/src/services/alldebrid.ts:232-233 | A name with no dot is compared whole (a file named `MKV` is a video) |
| AllDebrid.LastIndexOfUpper | hicc/src/services/alldebrid.ts:232 | Upper-casing does not move the last dot |
| AllDebrid.ExtensionOfUpper | hicc/src/services/alldebrid.ts:232 | The extension of the upper-cased name is the upper-cased extension |
| AllDebrid.UpperSuffix | hicc/src/services/alldebrid.ts:232 | Upper-casing commutes with taking a suffix |
| AllDebrid.LowerOfUpper | hicc/src/services/alldebrid.ts:232 | Lower-casing after upper-casing is plain lower-casing |
| AllDebrid.IsVideoNameIgnoresCase | hicc/src/services/alldebrid.ts:232-233 | The video test ignores case |
| UnlockFlow.FailureText | hicc/src/screens/UnlockScreen.tsx:105-106 | `e.message \|\| 'Failed to unlock magnet'`: never empty, and the message itself when it is non-empty |
| UnlockFlow.AfterUpload | hicc/src/screens/UnlockScreen.tsx:55-69 | A failed upload fails with its message. A ready magnet is listed at once: done with its video files and "Found N video file(s)", or failed with the listing's message. A magnet not ready starts polling with 0 attempts and "Waiting for AllDebrid to cache...", with the files and the error unchanged |
| UnlockFlow.AfterTick | hicc/src/screens/UnlockScreen.tsx:71-93 | Each tick counts one attempt. Done exactly when the status is ready and the listing succeeds. Timed out exactly when the status is not ready at attempt 30 or later, with the timeout message and the files unchanged. A throwing status call changes only the counter. A ready reply whose listing throws changes only the counter and the "Fetching files..." status line. Done shows "Found N video file(s)". While polling, the error and the files are unchanged. Otherwise the status line shows attempt, bound and status code |
| UnlockFlow.Run | hicc/src/screens/UnlockScreen.tsx:95-101 | The poll makes at most one status call per tick |
| UnlockFlow.RunShape | hicc/src/screens/UnlockScreen.tsx:95-101 | A flow that is not polling makes no call. Each call counts one attempt. The poll stops before the ticks run out only by ending. A poll never ends in failure |
| UnlockFlow.NoCallAfterStop | hicc/src/screens/UnlockScreen.tsx:97-100 | Once a tick has cleared the interval, further ticks change nothing |
| UnlockFlow.ConclusivePollIsBounded | hicc/src/screens/UnlockScreen.tsx:84-87 | With status calls and listings that succeed, polling ends (done or timed out) within the attempts left before 30 |
| UnlockFlow.ThirtyNotReadyTimesOut | hicc/src/screens/UnlockScreen.tsx:84-87 | Not-ready replies up to the bound time out after exactly the remaining calls, with "Timeout waiting for cache. Try again later." |
| UnlockFlow.ReadyAfterWaiting | hicc/src/screens/UnlockScreen.tsx:75-82 | `k` not-ready replies and then a ready one list that reply's video files on call `k + 1`, with the error unchanged and the "Found N video file(s)" status |
| UnlockFlow.ReadyOnLastAttemptLists | hicc/src/screens/UnlockScreen.tsx:75-87 | Readiness is tested before the bound: a ready reply on attempt 30 lists the files |
| UnlockFlow.FailingStatusKeepsPolling | hicc/src/screens/UnlockScreen.tsx:72-73 | Status calls that keep throwing never end the poll; the counter grows by one per tick, past the bound |
| UnlockFlow.UnlockSession.constructor | hicc/src/screens/UnlockScreen.tsx:55-58 | The screen starts uploading, with no files, no error and 0 attempts |
| UnlockFlow.UnlockSession.UnlockMagnet | hicc/src/screens/UnlockScreen.tsx:55-69 | The callback's updates give exactly `AfterUpload`; a cached magnet never starts polling |
| UnlockFlow.UnlockSession.CheckStatus | hicc/src/screens/UnlockScreen.tsx:71-93 | The updates give exactly `AfterTick`. The returned flag is true exactly when polling has ended, and the counter grows by one |
| UnlockFlow.UnlockSession.Poll | hicc/src/screens/UnlockScreen.tsx:95-101 | Running one `checkStatus` per tick until done gives exactly the state and call count of `Run` |
| Library.ReadList | hicc/src/services/library.ts:27-34 | A missing or unparseable stored value reads as the empty list, a parsed one as itself (also lines 69-76) |
| Library.SearchSaved | hicc/src/services/library.ts:41 | True exactly when some entry has this query |
| Library.MagnetSaved | hicc/src/services/library.ts:83 | True exactly when some entry has this magnet link |
| Library.PrependKeepsQueriesUnique | hicc/src/services/library.ts:41-49 | Putting in front a query that is not saved keeps the queries distinct |
| Library.PrependKeepsMagnetsUnique | hicc/src/services/library.ts:83-91 | Putting in front a magnet that is not saved keeps the magnet links distinct |
| Library.WithoutSearch | hicc/src/services/library.ts:60 | Exactly the entries whose id differs are kept |
| Library.WithoutMagnet | hicc/src/services/library.ts:102 | Exactly the entries whose id differs are kept |
| Library.WithoutSearchKeepsOrder | hicc/src/services/library.ts:60 | Removal keeps the order of the remaining searches |
| Library.WithoutMagnetKeepsOrder | hicc/src/services/library.ts:102 | Removal keeps the order of the remaining magnets |
| Library.WithoutAbsentSearch | hicc/src/services/library.ts:57-62 | Removing an id no entry has changes nothing |
| Library.WithoutSearchKeepsUnique | hicc/src/services/library.ts:57-62 | Removal keeps the queries distinct |
| Library.WithoutMagnetKeepsUnique | hicc/src/services/library.ts:99-104 | Removal keeps the magnet links distinct |
| Library.LibraryService.constructor | hicc/src/services/library.ts:27-34 | The lists are what storage holds, read as `getSavedSearches`/`getSavedMagnets` read them |
| Library.LibraryService.AddSavedSearch | hicc/src/services/library.ts:36-55 | A saved query gives "Search already saved" and no change. Otherwise the new entry goes in front and "Search saved" if the write succeeds, else "Failed to save search" and no change. Magnets are untouched, and distinct queries stay distinct |
| Library.LibraryService.RemoveSavedSearch | hicc/src/services/library.ts:57-66 | On a successful write, the entries with the id are gone and "Search removed"; else "Failed to remove search" and no change. Distinct queries stay distinct |
| Library.LibraryService.AddSavedMagnet | hicc/src/services/library.ts:78-97 | A saved magnet link gives "Already in library". Otherwise a new entry carrying every supplied field goes in front and "Added to library", or "Failed to add to library" and no change. Distinct links stay distinct |
| Library.LibraryService.RemoveSavedMagnet | hicc/src/services/library.ts:99-108 | On a successful write, the entries with the id are gone and "Removed from library"; else "Failed to remove from library" and no change. Distinct links stay distinct |
| Library.LibraryService.IsMagnetSaved | hicc/src/services/library.ts:110-113 | True exactly when some stored entry has this magnet link |
| Library.LibraryService.IsSearchSaved | hicc/src/services/library.ts:115-118 | True exactly when some stored entry has this query |
| Scraper.ReplaceQuotes | hicc/src/services/scraper.ts:23 | Same length, no quote left; each quote becomes a space and every other character is kept |
| Scraper.CollapseSpaces | hicc/src/services/scraper.ts:23 | Collapsing never lengthens the string |
| Scraper.CollapseShape | hicc/src/services/scraper.ts:23 | No two white-space characters are adjacent, only plain spaces remain, and the first character is the input's, or a space where the input starts with white space |
| Scraper.CollapseAppend | hicc/src/services/scraper.ts:23 | Collapsing works piece by piece across a boundary that follows a non-space character |
| Scraper.CollapseGap | hicc/src/services/scraper.ts:23 | A white-space run in front of text (or at the end) becomes exactly one space |
| Scraper.CollapseWordGap | hicc/src/services/scraper.ts:23 | A white-space run between two words becomes exactly one space: it is neither dropped nor kept as it was |
| Scraper.CollapseKeepsText | hicc/src/services/scraper.ts:23 | Collapsing leaves the non-white-space text unchanged |
| Scraper.TrimKeepsText | hicc/src/services/scraper.ts:23 | Trimming leaves the non-white-space text unchanged |
| Scraper.TextMembers | hicc/src/services/scraper.ts:23 | The text of a string holds exactly its non-white-space characters |
| Scraper.TextEmpty | hicc/src/services/scraper.ts:23 | A string has no text exactly when it is all white space |
| Scraper.TextAppend | hicc/src/services/scraper.ts:23 | The text of a concatenation is the concatenation of the texts |
| Scraper.TextOfTrimStart | hicc/src/services/scraper.ts:23 | Dropping leading white space keeps the text |
| Scraper.Sanitize | hicc/src/services/scraper.ts:23 | The sanitised query has no quote, no white space at its ends, no two adjacent white-space characters, and only plain spaces |
| Scraper.SanitizeKeepsText | hicc/src/services/scraper.ts:23 | Sanitising changes only white space and quotes: the text is the query's text with the quotes taken out |
| Scraper.SanitizeOfSanitized | hicc/src/services/scraper.ts:23 | A sanitised query is left as it is |
| Scraper.SanitizeIdempotent | hicc/src/services/scraper.ts:23 | Sanitising twice is sanitising once |
| Scraper.SanitizeJoinsWords | hicc/src/services/scraper.ts:23 | Two sanitised words separated by any white space come out joined by exactly one space ("the  matrix" gives "the matrix") |
| Scraper.SanitizeBlank | hicc/src/services/scraper.ts:23 | The query sanitises to the empty string exactly when it holds only white space and quotes |
| Scraper.CollapseOfCollapsed | hicc/src/services/scraper.ts:23 | A string without runs and with only plain spaces is its own collapsing |
| Scraper.MagnetCarriesInfoHash | hicc/src/services/scraper.ts:39-40 | The magnet link gives back the info hash it was built from (the text after the prefix up to the first `&`) |
| Scraper.SplitFirstPiece | hicc/src/services/scraper.ts:39 | The first `&`-piece of `h & rest` is `h` when `h` has no `&` |
| Scraper.ToResults | hicc/src/services/scraper.ts:34-41 | The mapping succeeds exactly when every name encodes. It gives one result per item, in order, with the item's name and info hash and the magnet link built from them |
| Scraper.SearchApibay | hicc/src/services/scraper.ts:22-46 | Every result carries a magnet link (`magnet:?xt=urn:btih:` followed by the info hash) |
| Scraper.SearchOutcomes | hicc/src/services/scraper.ts:22-46 | An encoding failure, a transport failure, a reply that is not a list, or the sentinel gives `[]`. A non-empty answer maps every item of the reply, in order |
| Scraper.SearchMapsEveryItem | hicc/src/services/scraper.ts:30-41 | With the request succeeding, the first item not the sentinel and every name encodable, the answer is the full mapping |
| Posters.LineKey | reference/watchy/src/main/services/posters.js:27-33 | Both directions: when the text before the last dot is `tt` and digits, it is the key; a name without a dot has no key; any key is an IMDb id making up the whole name up to its last dot |
| Posters.CatalogLines | reference/watchy/src/main/services/posters.js:20 | A line is kept exactly when it is a non-blank line of the text |
| Posters.Filenames | reference/watchy/src/main/services/posters.js:23 | Name `i` is line `i` trimmed, one name per line |
| Posters.FilenamesSnoc | reference/watchy/src/main/services/posters.js:22-23 | One more line gives one more trimmed name at the end |
| Posters.AddName | reference/watchy/src/main/services/posters.js:27-33 | A name without a key leaves the map alone; a name with a key files the name under it, adds that key only, and leaves every other entry as it was |
| Posters.AddNames | reference/watchy/src/main/services/posters.js:22-34 | Loading never removes a key, every stored name is the old one or one of the loaded names, and a key no loaded name gives keeps its old name |
| Posters.FilenamesNonEmpty | reference/watchy/src/main/services/posters.js:20-24 | Trimming a non-blank line never gives an empty name |
| Posters.CatalogNames | reference/watchy/src/main/services/posters.js:20-24 | None of the names a downloaded catalogue lists is empty |
| Posters.AddNamesSnoc | reference/watchy/src/main/services/posters.js:22-34 | Loading one more name is one more step of the loop |
| Posters.AddLinesStep | reference/watchy/src/main/services/posters.js:22-34 | Loading one more line is one more step of the loop |
| Posters.AddNamesValid | reference/watchy/src/main/services/posters.js:27-33 | Loading keeps every entry filed under its own key. Every key is an IMDb id, and every name is that id followed by more |
| Posters.AddNameValid | reference/watchy/src/main/services/posters.js:30-33 | One loop step keeps every entry filed under its own key |
| Posters.ValidCatalogShape | reference/watchy/src/main/services/posters.js:30-33 | In a valid catalogue every key is an IMDb id and the name under it starts with that id |
| Posters.AddNamesKeys | reference/watchy/src/main/services/posters.js:22-34 | After loading, an id is a key exactly when it was one before or some name gives it |
| Posters.LaterNameWins | reference/watchy/src/main/services/posters.js:32 | For an id given by several names, the last of them is stored |
| Posters.EmptyNamesChangeNothing | reference/watchy/src/main/services/posters.js:24 | The `if (!filename) continue` is redundant: dropping the empty names gives the same map |
| Posters.PostersService.constructor | reference/watchy/src/main/services/posters.js:7-8 | The module starts with an empty catalogue that is not loaded |
| Posters.PostersService.AddCatalogLine | reference/watchy/src/main/services/posters.js:23-33 | One pass of the loop is `AddName` on the trimmed line; the flag is untouched |
| Posters.PostersService.AddCatalogLines | reference/watchy/src/main/services/posters.js:22-34 | The loop over the kept lines is the fold of `AddName` over their trimmed names |
| Posters.PostersService.LoadCatalog | reference/watchy/src/main/services/posters.js:11-45 | A failed download leaves the map alone and marks it not loaded. A successful one folds every non-blank trimmed line into the map and marks it loaded. A valid catalogue stays valid |
| Posters.PostersService.GetPostersByImdbIds | reference/watchy/src/main/services/posters.js:74-109 | No answer for a non-list, an empty list, an unloaded or an empty catalogue. Once loaded, an id is answered exactly when it is requested and the catalogue holds a non-empty name for it, and its URL is the image base followed by that name |

## Left out

- I/O is not modelled; its results are inputs. This covers AsyncStorage, the
  axios and `https` requests, `fetchText`, the HTTP agent and bearer
  headers, and the form encodings.
- Every exchange is one `Transport` value: the parsed JSON reply, or the
  exception's message.
- JSON shapes beyond those the datatypes name are not modelled. Examples: a
  stored value that parses to a non-array, a `files` node that is not an
  object, or a legacy `LinkObject` without `.link`.
- The API key is one input, read once per operation. `getLegacyStatus` and
  `unlockLinksToFiles` read it again in the code; the model assumes the same
  value.
- `Date.now().toString()` and `new Date().toISOString()` are parameters of
  the library's add operations; so is the success of the storage write.
- `formatSize`, `parseInt` of seeders, leechers and size, and `console`
  logging are not modelled. A search result keeps title, magnet and info
  hash only.
- `encodeURIComponent` and `decodeURIComponent` are opaque partial functions
  passed in. Their exact escaping is not modelled.
- JsString.Lower: models `toLowerCase` only for the characters it maps to a
  single ASCII letter (A-Z and the Kelvin sign). Other characters are kept,
  U+0130 included, which `toLowerCase` turns into `i` followed by U+0307.
  Either way the word keeps a non-ASCII character. The extension test
  therefore decides the same, but this is not the full Unicode mapping.
- JavaScript numbers are unbounded integers here, and `String(n)` (JsString.Show) is
  plain decimal. JavaScript loses precision above 2^53 and writes numbers from
  1e21 up in exponent form. Only the `String(x.id) === String(id)` match of the
  legacy status could differ, and only for such ids.
- Strings are sequences of code points. UTF-16 surrogates, and the
  exceptions they cause in `encodeURIComponent`, enter only through the
  encoder parameter.
- `loadCatalog`'s memoised promise, its call at module load, and the wait on
  it in `getPostersByImdbIds` are not modelled. The model takes the settled
  download as input. That promise never rejects, because its own catch
  handles every failure.
- The `{}` and `new Map()` answers of `getPostersByImdbIds` are both the
  empty map. `ids` holds strings only; non-string ids are not modelled.
- The unlock screen's 3-second timer is not modelled, nor are the overlap of
  a slow tick with the next one, `setLoading`, the `finally`, the cleanup
  function returned from the callback, and the screen's rendering. Ticks run
  one after another.
- `setApiKey` (a storage write) is not modelled. `HasKey` is the `!!key`
  test that `hasApiKey` and the guard of every AllDebrid call apply to the
  stored key.
- The TypeError message the engine produces when reading a property of
  undefined is a constant (`UndefinedPropertyError`), not its exact wording.
- `Object.values` enumeration order is taken as given in `FilesKeyed`.
