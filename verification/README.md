# CozyStream core in Dafny

A model of the deterministic core of CozyStream, a self-hosted media server with a web
and TV client. The server indexes video files from library folders, looks up metadata,
serves files by HTTP byte ranges and transcodes to HLS on demand. The clients arrange
the library into rows and collections and keep display settings in browser storage.
This project states those decisions as pure functions and small state machines and
proves properties of them.

Modules:

- `Common`, `JsText`, `Paths`, `Sorting`: the JavaScript and Node primitives the code
  relies on. These are `trim`, `\s`, `toLowerCase`, `split`/`join`, `parseInt`,
  `indexOf`/`replace`, `path.basename`/`extname`/`join`, and a stable sort. `Common`
  also holds `Option`, the filter helper `Keep` and a JSON value type.
- `FileUtils`, `FileNames`: the media-type tests, MIME lookup, `finalise`, sort titles,
  library containment, and the movie and episode file-name parsers.
- `Probe`: reading `ffprobe` output into tracks, codecs and subtitle files.
- `Scanner`: walking the library folders and indexing each video file.
- `Metadata`: the movie and TV lookup plans, search suggestions, credits and the
  junk-word stripper.
- `Catalog`: the media, watch-progress, collection and settings tables.
- `Accounts`: the user, invite, favourite and watchlist tables.
- `Transcoder`: the transcode session registry.
- `Streaming`: the direct-play route with its Range header arithmetic.
- `LibraryRoutes`, `AuthRoutes`, `SettingsRoutes`, `ServerHooks`: the HTTP routes'
  decisions and the server's start-up and request hooks.
- `Browse`, `RowOrder`, `Collections`, `CollectionManager`: the web client's browse
  page, its saved row order, and the client-side collections.
- `SettingsPage`, `DisplaySettings`, `ColorUtils`: the settings page, the display
  settings store and the colour conversions.
- `SpatialNavigation`, `TvApi`: the TV client's remote-control focus movement and its
  server address.

Time, the current year, the file system, child processes, the metadata service, browser
storage, random bytes, password hashing and JSON text are parameters of the functions
that need them.

## Model

| member | source | states |
|---|---|---|
| Transcoder.GetOrCreate | server/src/services/transcoder.ts:41-155 | An existing session is returned with only its access time refreshed and nothing started. Otherwise a new session `<id>-<now>` is stored under the item id, with its directory under the cache root, `stream.m3u8` inside it, not ready, both times equal to now and the start offset kept. Its directory is created and its encoder started. No other entry changes. |
| Transcoder.NewSession | server/src/services/transcoder.ts:54-58 | A fresh record is named `<item>-<now>`, lives in that directory under the cache root with `stream.m3u8` inside it, is not ready, polls, has its safety timer pending, and takes the next record identity. |
| Transcoder.GetSession | server/src/services/transcoder.ts:157-163 | A hit returns the stored session with the access time refreshed; a miss returns nothing and leaves the registry unchanged. The key set never grows. |
| Transcoder.Kill | server/src/services/transcoder.ts:165-179 | An absent id changes nothing. Otherwise the encoder is signalled, its directory removed and the entry dropped; every other entry is unchanged. |
| Transcoder.KillIdempotent | server/src/services/transcoder.ts:165-179 | Killing twice equals killing once, and the second kill has no effects. |
| Transcoder.Reap | server/src/services/transcoder.ts:27-37 | A session stays exactly when `now - lastAccessedAt` does not exceed 30 minutes (strict comparison). Kept sessions are unchanged, whatever the map's enumeration order. |
| Transcoder.ReapKillsIdle | server/src/services/transcoder.ts:29-37 | Every idle session is sent SIGKILL and has its output directory removed. |
| Transcoder.ReapKillsOnlyIdle | server/src/services/transcoder.ts:29-37 | Every effect of the reaper is the kill or the directory removal of an idle session. |
| Transcoder.CleanupAll | server/src/services/transcoder.ts:181-191 | After shutdown clean-up the session map is empty, and the last effect removes the whole cache directory. |
| Transcoder.CleanupKillsAll | server/src/services/transcoder.ts:181-184 | Every registered session is sent SIGKILL and has its output directory removed. |
| Transcoder.CleanupKillsOnlySessions | server/src/services/transcoder.ts:181-184 | Every effect before the cache removal is the kill or the directory removal of a registered session. |
| Transcoder.EncoderError | server/src/services/transcoder.ts:93-99 | An encoder error removes whatever entry is registered under the item id and nothing else. |
| Transcoder.PollTick | server/src/services/transcoder.ts:106-124 | A tick makes the session ready exactly when it is the current record, still polling, the playlist is readable and lists at least 3 `.ts` lines or contains `#EXT-X-ENDLIST`. Ready never returns to false and other entries are unchanged. |
| Transcoder.ReadyTimeout | server/src/services/transcoder.ts:126-138 | The 60 s timer stops polling. A session not yet ready becomes ready iff the playlist file exists, and its waiters are released either way. A ready session stays ready. |
| Transcoder.EncoderOptions | server/src/services/transcoder.ts:66-84 | There are 18 options: the video and audio `-map` selectors at positions 9 and 10 and the segment file pattern inside the output directory. |
| Transcoder.MapOptionsReadBack | server/src/services/transcoder.ts:75-76 | The `-map` selectors read back as the supplied indices, with audio track 0 by default. |
| Transcoder.SessionIdInjective | server/src/services/transcoder.ts:54 | The session id `<item>-<now>` determines both the item and the creation time. |
| Transcoder.SecondRequestJoins | server/src/services/transcoder.ts:48-52 | A second request for the same item returns the first session, whatever its start time and tracks, with only the access time changed and no new encoder. |
| Transcoder.GetOrCreatePreservesValid | server/src/services/transcoder.ts:48-58 | Creating or joining keeps every entry under its own item id with its derived paths, and the readiness flags consistent. |
| Transcoder.LookupAndRemovalPreserveValid | server/src/services/transcoder.ts:157-191 | Lookup, kill, reaping, clean-up and the error handler keep the registry well formed. |
| Transcoder.PollTickPreservesValid | server/src/services/transcoder.ts:110-124 | The readiness poll keeps the registry well formed. |
| Transcoder.ReadyTimeoutPreservesValid | server/src/services/transcoder.ts:126-138 | The safety timeout keeps the registry well formed. |
| Transcoder.StaleErrorEvictsNewerSession | server/src/services/transcoder.ts:93-99 | As written: after kill and re-create, the first encoder's late error removes the newer session. |
| Transcoder.EncoderErrorOf | server/src/services/transcoder.ts:93-99 | Corrected handler: the entry is removed only when it is still the session whose encoder failed. |
| Transcoder.StaleErrorKeepsNewerSession | server/src/services/transcoder.ts:93-99 | With the corrected handler the late error leaves the newer session registered. |
| Streaming.DecideRange | server/src/routes/streaming.ts:28-40 | A served range satisfies `start <= end <= size - 1`, and start is `max(0, first number)` with a non-number read as 0. An empty file never gets a partial reply. A present, non-numeric end is told apart. |
| Streaming.DecisionIsComparison | server/src/routes/streaming.ts:29-37 | The clamped end never exceeds `size - 1`. The reply is 416 exactly when start exceeds that end, and otherwise covers start..end. |
| Streaming.LookupFile | server/src/routes/streaming.ts:9-20 | The id is read by `parseInt` without a radix, so a `0x` prefix means hexadecimal. The item is missing exactly when the id is not a number, is unknown or has no file path. It is "not on disk" exactly when its path is absent from the disk. |
| Streaming.Handle | server/src/routes/streaming.ts:8-65 | The id is read by `parseInt` without a radix. The reply is 404 exactly when the lookup does not find a file on disk. A found file with a non-empty Range header gets the range reply; with no header or an empty one it gets the full reply. Both use the MIME type of the file's path. |
| Streaming.HandleServesStoredFile | server/src/routes/streaming.ts:8-65 | For a stored item whose file is on disk, no Range header serves all its bytes with 200. A header that selects positions serves exactly those bytes with 206. A header that selects none answers 416 with no body. |
| Streaming.ServeFull | server/src/routes/streaming.ts:57-64 | Without a Range header: status 200, the whole file, `Content-Length` equal to its size, `Accept-Ranges: bytes` and `Cache-Control: no-cache, no-store`. |
| Streaming.ServeRange | server/src/routes/streaming.ts:27-55 | A non-numeric end throws. Otherwise the status is 206 or 416. A 416 has an empty body and only `Content-Range: bytes */<size>`. |
| Streaming.PartialReply | server/src/routes/streaming.ts:42-54 | A 206 reply carries exactly bytes start..end, `Content-Length` equal to their count, the `Content-Range`, and the two caching/range headers. |
| Streaming.EmptyRangeIsFull | server/src/routes/streaming.ts:27 | An empty Range header is treated as no header. |
| Streaming.IntRangeAgrees | server/src/routes/streaming.ts:28-40 | For every valid `bytes=a-b` or `bytes=a-` the handler selects what section 14.1.2 of RFC 9110 selects. A first position past the end is unsatisfiable, as in section 15.5.17. |
| Streaming.SuffixRangeDeviates | server/src/routes/streaming.ts:28-34 | `bytes=-n` is served as `0..n`, not as the last `n` bytes of RFC 9110 section 14.1.2. |
| FileUtils.MimeType | server/src/utils/fileUtils.ts:19-40 | The fallback `application/octet-stream` is returned exactly when the lower-cased extension is not in the table. |
| FileUtils.ExtensionCaseInsensitive | server/src/utils/fileUtils.ts:11-40 | The video and audio tests and the MIME lookup give the same answer for a path and its lower-cased form. |
| FileUtils.MimeTypeOfMedia | server/src/utils/fileUtils.ts:3-40 | Every video extension maps to a `video/` type and every audio extension except `.opus` to an `audio/` type. `.opus` falls back to the generic type. |
| FileUtils.Finalise | server/src/utils/fileUtils.ts:179-184 | The result has no `.` or `_`, only single spaces as whitespace, and no surrounding whitespace. |
| FileUtils.FinaliseIdempotent | server/src/utils/fileUtils.ts:179-184 | Finalising twice equals finalising once. |
| FileUtils.FinaliseFixes | server/src/utils/fileUtils.ts:179-184 | Text already in finalised shape is left unchanged. |
| FileUtils.MeaningfulAfterYear | server/src/utils/fileUtils.ts:173-177 | The result is absent exactly when the cleaned text has a JavaScript length (UTF-16 code units) under 4; otherwise it is that cleaned, finalised text. |
| FileUtils.MakeSortTitle | server/src/utils/fileUtils.ts:228-233 | The sort title has no upper-case ASCII letter and no surrounding whitespace. |
| FileUtils.ArticleRestChanges | server/src/utils/fileUtils.ts:230-231 | The article pattern changes a lower-cased title exactly when `the`, `a` or `an` followed by whitespace opens it, and then shortens it. |
| FileUtils.SortTitleDropsOneArticle | server/src/utils/fileUtils.ts:228-233 | A title that is an article in any case, whitespace and a rest becomes the trimmed, lower-cased rest. |
| FileUtils.SortTitleWithoutArticle | server/src/utils/fileUtils.ts:228-233 | A title without a leading article is only lower-cased and trimmed. |
| FileUtils.SortTitleNotIdempotent | server/src/utils/fileUtils.ts:228-233 | With two leading articles, one call removes only the first (e.g. "The A Team" gives "a team") and a second call removes the other, so the function is not idempotent. |
| FileUtils.SiblingPrefixNotWithin | server/src/utils/fileUtils.ts:220-226 | `/media2/x` is not within `/media`, while `/media/x` is. |
| FileUtils.RootLibraryContainsNothing | server/src/utils/fileUtils.ts:220-226 | As written: with the library root `/`, no path below the root counts as within it. |
| FileUtils.WithinRootFixedAgrees | server/src/utils/fileUtils.ts:220-226 | Corrected test: it agrees with the written one for every root without a trailing separator, and puts every absolute path within `/`. |
| FileNames.ParenMatch | server/src/utils/fileUtils.ts:126 | The match position is the smallest non-empty title on the first line after which optional whitespace and `(dddd)` follow. No match means no such title exists. |
| FileNames.SpacedMatch | server/src/utils/fileUtils.ts:136 | The match is the leftmost whitespace, `19dd`/`20dd`, whitespace; no match means there is none. |
| FileNames.WordMatch | server/src/utils/fileUtils.ts:152 | The match is the first `19dd`/`20dd` with a word boundary on both sides that the lazy prefix reaches on the first line. |
| FileNames.ParseMovie | server/src/utils/fileUtils.ts:119-167 | A reported year lies in [1900, currentYear + 1]. Without a year there is no after-year text. Title and after-year text are in finalised shape, and after-year text has a JavaScript length of at least 4 UTF-16 code units. |
| FileNames.ParenStrategy | server/src/utils/fileUtils.ts:125-133 | The `Title (Year)` form decides exactly when it matches with a plausible year, and then never reports after-year text. |
| FileNames.SpacedStrategy | server/src/utils/fileUtils.ts:135-149 | The spaced-year strategy decides exactly when it matches with a plausible year. |
| FileNames.WordStrategy | server/src/utils/fileUtils.ts:151-163 | The word-boundary strategy decides exactly when it matches with a plausible year. |
| FileNames.MovieYearFound | server/src/utils/fileUtils.ts:119-167 | A year is reported iff one of the three patterns finds a plausible year. The parenthesised form gives its title and no after-year text. |
| FileNames.TitleParenYear | server/src/utils/fileUtils.ts:126-132 | A name whose first characters are a one-line title without `(` that ends in a non-space character, followed by optional whitespace and `(dddd)` with a plausible year, parses as that title and year with no after-year text. |
| FileNames.EpisodeAt | server/src/utils/fileUtils.ts:201 | A match after a name ending at `e` has a non-empty separator run, `S`, 1–2 season digits, `E` and 1–2 episode digits. The title is absent exactly when the episode digits end the name. |
| FileNames.EpisodeMatchOf | server/src/utils/fileUtils.ts:201 | The name is the shortest non-empty one on the first line for which the rest of the pattern matches. No match means none does. |
| FileNames.ParseEpisode | server/src/utils/fileUtils.ts:197-210 | Season and episode are below 100, and the show name and any episode title are finalised. |
| FileNames.EpisodeTitleAbsent | server/src/utils/fileUtils.ts:201-208 | The episode title is null exactly when nothing follows the episode number. |
| FileNames.ParsedIsEpisodeFile | server/src/utils/fileUtils.ts:197-214 | Every name `parseEpisodeFilename` accepts passes `isEpisodeFile`. |
| FileNames.BareMarkerNotParsed | server/src/utils/fileUtils.ts:201-214 | A bare `S<d>E<d>` passes `isEpisodeFile` but is not parsed, because no name precedes it. |
| Accounts.UserCount | server/src/db/auth-queries.ts:32-37 | The count is zero exactly when there are no users. |
| Accounts.UserByUsername | server/src/db/auth-queries.ts:39-43 | Finds a user exactly when the name is taken. The user found has that name. |
| Accounts.CreateUser | server/src/db/auth-queries.ts:51-61 | A name already taken breaks `UNIQUE`, and the insert fails. Otherwise one row is appended under the next key, and that key is returned. |
| Accounts.CreateUserSpec | server/src/db/auth-queries.ts:51-61 | Creating a user keeps the table valid and adds one to the count. The new user is then found by name. |
| Accounts.AppendKeepsValid | server/src/db/auth-queries.ts:57-60 | Appending under the next key with a fresh name keeps keys ascending and names unique. |
| Accounts.LookupAppended | server/src/db/auth-queries.ts:39-43 | Looking up the name of an appended user with a fresh name finds that user. |
| Accounts.ToSafe | server/src/db/auth-queries.ts:63-66 | The safe view keeps every column except the password hash. |
| Accounts.OlderFirstPreorder | server/src/db/auth-queries.ts:65 | Ordering by creation time is a total preorder. |
| Accounts.AllUsers | server/src/db/auth-queries.ts:63-67 | Every user's safe view, each once, sorted oldest first. |
| Accounts.AllUsersComplete | server/src/db/auth-queries.ts:63-67 | Each user appears in the listing, and only users do. |
| Accounts.CreateInviteCode | server/src/db/auth-queries.ts:73-77 | A repeated code or an unknown creator fails. Otherwise an unused code is appended. |
| Accounts.GetInviteCode | server/src/db/auth-queries.ts:79-83 | Finds a code exactly when it is stored. |
| Accounts.MarkInviteCodeUsed | server/src/db/auth-queries.ts:85-89 | Only the rows with that code are marked as used by that user. An unknown user fails the foreign key, but only when such a row exists. |
| Accounts.MarkUsedReadsBack | server/src/db/auth-queries.ts:85-89 | After marking, the code reads back as used by that user, and the table stays valid. |
| Accounts.MarkUsedValid | server/src/db/auth-queries.ts:85-89 | Marking with a known user keeps the table valid. |
| Accounts.NewerCodeFirstPreorder | server/src/db/auth-queries.ts:93 | Ordering by creation time, newest first, is a total preorder. |
| Accounts.InviteCodes | server/src/db/auth-queries.ts:91-95 | Exactly the creator's codes, newest first. |
| Accounts.DeleteInviteCode | server/src/db/auth-queries.ts:97-101 | Removes exactly the unused rows with that code. |
| Accounts.DeleteInviteCodeSpec | server/src/db/auth-queries.ts:97-101 | A used code survives deletion. An unused or unknown one is gone afterwards. |
| Accounts.TogglePair | server/src/db/auth-queries.ts:107-122 | An existing pair is removed and `false` returned. A new pair is added and `true` returned, unless the keys are unknown. No other pair changes. |
| Accounts.ToggleUserFavorite | server/src/db/auth-queries.ts:107-122 | Only this user's favourites change. Adding with an unknown user or item fails. |
| Accounts.ToggleUserWatchlist | server/src/db/auth-queries.ts:135-150 | Only this user's watchlist changes. Adding with an unknown user or item fails. |
| Accounts.TogglePairTwice | server/src/db/auth-queries.ts:107-122 | Toggling twice restores the set and flips the answer. |
| Accounts.ToggleUserFavoriteTwice | server/src/db/auth-queries.ts:107-122 | Toggling a favourite twice restores the store. |
| Accounts.ToggleUserWatchlistTwice | server/src/db/auth-queries.ts:135-150 | Toggling the watchlist twice restores the store. |
| Accounts.Flagged | server/src/db/auth-queries.ts:167-170 | Exactly the items whose global flag is 1, each paired with the user. |
| Accounts.Migrate | server/src/db/auth-queries.ts:163-177 | Only the favourite and watchlist tables change. An unknown user fails when any item is flagged. |
| Accounts.MigrateSpec | server/src/db/auth-queries.ts:163-177 | Each flagged item ends up in the user's lists. Other users' lists are untouched. Migrating again changes nothing (`INSERT OR IGNORE`). |
| AuthRoutes.SetupRequired | server/src/routes/auth.ts:16-19 | Setup is required exactly when there are no users. |
| AuthRoutes.FieldError | server/src/routes/auth.ts:27-35 | No field error exactly when all three fields are given, the name has a JavaScript length of at least 3 UTF-16 code units and the password at least 6. |
| AuthRoutes.InviteError | server/src/routes/auth.ts:47-53 | No invite error exactly when a code is given, is stored, and is unused. |
| AuthRoutes.RegisterCheck | server/src/routes/auth.ts:26-54 | The checks admit a request exactly when the fields are valid, the name is free, and either there is no account yet or the invite is stored and unused. Admission is as the first account exactly when there is none. Refusals are 400 or 409. |
| AuthRoutes.RegisterCommit | server/src/routes/auth.ts:56-68 | After the hash, on the store as it is then, the commit fails exactly when the name has been taken meanwhile. It then answers 500 with the `UNIQUE` error. Otherwise it appends exactly the new account, with the next key and the role chosen at check time. |
| AuthRoutes.Register | server/src/routes/auth.ts:22-76 | Without a concurrent request, a registration succeeds only with valid fields and a free name, and every rejection is a 400 or a 409. |
| AuthRoutes.ConcurrentFirstRegistrations | server/src/routes/auth.ts:42-66 | Two first registrations whose hashes overlap both pass the checks, and both accounts become admins. |
| AuthRoutes.ConcurrentInviteUse | server/src/routes/auth.ts:45-63 | Two registrations with the same unused invite whose hashes overlap both create member accounts. |
| AuthRoutes.ConcurrentSameName | server/src/routes/auth.ts:36-58 | The same name registered twice with overlapping hashes passes both checks, and the second commit answers 500. |
| AuthRoutes.RegisterChecksFieldsFirst | server/src/routes/auth.ts:27-35 | Field errors answer 400 whatever the store holds, in the order missing, short name, short password. |
| AuthRoutes.RegisterConflict | server/src/routes/auth.ts:37-40 | A taken name answers 409. |
| AuthRoutes.RegisterFirstUser | server/src/routes/auth.ts:42-68 | The first user becomes admin without an invite, takes the global favourites and watchlist, and ends setup. |
| AuthRoutes.RegisterWithInvite | server/src/routes/auth.ts:45-63 | Later users need a valid unused invite. They become members, and their code is marked as used by them. |
| AuthRoutes.RegisterInviteOnlyAfterSetup | server/src/routes/auth.ts:45-54 | A bad invite blocks registration exactly when setup is done. |
| AuthRoutes.LogIn | server/src/routes/auth.ts:79-96 | A rejection is a 400 for missing fields or the one 401 message. |
| AuthRoutes.LogInSpec | server/src/routes/auth.ts:84-110 | A login succeeds exactly when the name exists and the password matches its hash. The answer carries that user. An unknown name and a wrong password get the same 401. |
| AuthRoutes.RegisterThenLogIn | server/src/routes/auth.ts:22-110 | A freshly registered user can log in with the same password and gets the registered identity. |
| AuthRoutes.LookupSeesUsersOnly | server/src/db/auth-queries.ts:39-43 | Looking up a name depends on the user table alone. |
| SettingsRoutes.ViewSettings | server/src/routes/settings.ts:77-83 | The stored key is never sent: a mask exactly when one is stored. No stored paths means an empty list. A stored list that does not parse fails, and one that parses is sent as parsed. |
| SettingsRoutes.KeyNeverRevealed | server/src/routes/settings.ts:76-83 | Stores that differ only in a non-empty key give the same view. |
| SettingsRoutes.Missing | server/src/routes/settings.ts:91 | Exactly the listed paths that are not on disk. |
| SettingsRoutes.PostSettings | server/src/routes/settings.ts:86-115 | Saving changes only settings. |
| SettingsRoutes.PostRejectsMissingPaths | server/src/routes/settings.ts:89-94 | Any missing path rejects with 400, naming exactly the missing paths. |
| SettingsRoutes.PostStoresValidPaths | server/src/routes/settings.ts:95-107 | Valid paths are stored. A non-empty key is stored and exported. A scan starts exactly when none is running. No other setting changes. |
| SettingsRoutes.PostStoresKeyAlone | server/src/routes/settings.ts:109-112 | A key without paths is stored and exported as sent, even when empty. A body with neither changes nothing. |
| SettingsRoutes.PostThenView | server/src/routes/settings.ts:77-112 | After saving, the view shows the saved paths, and a mask exactly when a key is stored. |
| SettingsRoutes.StripSlash | server/src/routes/settings.ts:42 | Removes exactly one trailing `/`. |
| SettingsRoutes.Failure | server/src/routes/settings.ts:66-73 | A failed dialog is a cancel or a 500, nothing else. |
| SettingsRoutes.PickFolder | server/src/routes/settings.ts:21-74 | Without the desktop shell, an answer is cancelled exactly when it has no path. |
| SettingsRoutes.PickOnMac | server/src/routes/settings.ts:37-69 | Exit code 1 is a cancel. A chosen folder comes back trimmed, with one trailing separator removed. |
| SettingsRoutes.PickOnLinux | server/src/routes/settings.ts:43-60 | Any `zenity` failure falls through to `kdialog`, whose outcome alone decides. |
| ServerHooks.HookPasses | server/src/index.ts:79-88 | Requests with other methods, with empty bodies, or with a JSON type always pass. |
| ServerHooks.HookRejectsForms | server/src/index.ts:81-86 | A state-changing request with a body and no JSON type is refused with 415. |
| ServerHooks.JsonAnywherePasses | server/src/index.ts:82-84 | `application/json` anywhere in the content type lets the request through. |
| ServerHooks.ExtractToken | server/src/index.ts:59-65 | A bearer header yields a token. Otherwise the cookie decides. |
| ServerHooks.BearerRoundTrip | server/src/index.ts:61-62 | The token after `Bearer ` comes back unchanged, whatever the cookie. |
| ServerHooks.BootSecret | server/src/index.ts:51-55 | A stored secret is kept. Otherwise the generated one is stored and used. |
| ServerHooks.SecretStable | server/src/index.ts:51-55 | Once generated, the secret is the one every later start uses. |
| ServerHooks.BootApiKey | server/src/index.ts:70-74 | The environment's key wins. The stored key fills in only when the environment has none. |
| ServerHooks.BootScan | server/src/index.ts:102-110 | With no stored list, or an empty stored text, nothing is scanned. A stored text that does not parse aborts start-up. A parsed non-empty list is scanned as it is, and a parsed empty list starts no scan. |
| ServerHooks.BootScanAfterSave | server/src/index.ts:102-110 | After a path list is stored in an encoding that parses back, the next start scans exactly that list, or nothing when it is empty. |
| Browse.ShowNameEnd | src/app/pages/browse/browse.component.ts:22 | The lazy group stops at the first position (at least one character in, before any line break) where whitespace, `-`, whitespace and an `S<d>E<d>` marker follow. There is none exactly when no such position exists. |
| Browse.ExtractShowName | src/app/pages/browse/browse.component.ts:21-24 | The title is returned whole when there is no separator. Otherwise the text before the first separator is returned, trimmed. |
| Browse.FirstMarker | src/app/pages/browse/browse.component.ts:27-32 | The leftmost `S<1-2 digits>E<1-2 digits>` marker, either case, or none. |
| Browse.SeasonEnd | src/app/pages/browse/browse.component.ts:27 | The season takes one or two digits, as many as leave an `E` and a digit after them. |
| Browse.ExtractSeason | src/app/pages/browse/browse.component.ts:26-29 | The season is below 100, and it is 0 when no marker occurs. |
| Browse.ExtractEpisodeNum | src/app/pages/browse/browse.component.ts:31-34 | The episode is below 100, and it is 0 when no marker occurs. |
| Browse.TitleLayout | server/src/services/scanner.ts:91-93 | An episode title is the show name, ` - S`, two season digits, `E` and two episode digits. |
| Browse.MarkerInShow | src/app/pages/browse/browse.component.ts:27 | A marker that starts inside the show name lies wholly inside it. |
| Browse.FirstMarkerOfTitle | src/app/pages/browse/browse.component.ts:27-32 | When the show name has no marker, the first marker of the title is the one the scanner wrote. |
| Browse.SepAtShowEnd | src/app/pages/browse/browse.component.ts:22 | The scanner's ` - S..E..` is a separator. |
| Browse.SepBeforeShowEnd | src/app/pages/browse/browse.component.ts:22 | An earlier separator can only be followed by blanks up to the end of the show name. |
| Browse.EpisodeTitleRoundTrip | src/app/pages/browse/browse.component.ts:21-34 | For a non-empty show name with no line break and no marker, and season and episode below 100, the browse page reads back the trimmed show name, the season and the episode from the title the scanner built. |
| Browse.NumbersOfLayout | src/app/pages/browse/browse.component.ts:26-34 | Season and episode are read as the two-digit numbers after `S` and `E`. |
| Browse.ShowNameRoundTrip | src/app/pages/browse/browse.component.ts:21-24 | The show name is read back trimmed. |
| Browse.LayoutNoLineBreak | src/app/pages/browse/browse.component.ts:22 | Without a line break in the show name, the title has none before the separator. |
| Browse.ShowNameTail | src/app/pages/browse/browse.component.ts:23 | Stopping early, before trailing blanks of the name, trims to the same text. |
| Browse.GroupIndex | src/app/pages/browse/browse.component.ts:90 | The group with that key, or none when no group has it. |
| Browse.WithKeySnoc | src/app/pages/browse/browse.component.ts:88-94 | A further episode joins only its own key's list. |
| Browse.GroupEpisodesSpec | src/app/pages/browse/browse.component.ts:86-94 | Grouping gives one group per key. Each group holds exactly that key's episodes, in order, with the name and poster of the first of them. Every episode's key has a group. |
| Browse.AddDistinct | src/app/pages/browse/browse.component.ts:90-92 | Adding an episode never creates a second group for a key. |
| Browse.AddCovers | src/app/pages/browse/browse.component.ts:90-93 | After adding an episode, its key has a group. |
| Browse.AddGroupsOf | src/app/pages/browse/browse.component.ts:88-94 | Every group still holds exactly its key's episodes. |
| Browse.AddGroupOfAt | src/app/pages/browse/browse.component.ts:88-94 | The same holds for each group position. |
| Browse.JoinedGroup | src/app/pages/browse/browse.component.ts:93 | An episode appended to its key's group keeps that group exact. |
| Browse.OtherGroup | src/app/pages/browse/browse.component.ts:93 | The other groups are untouched and stay exact. |
| Browse.NoEpisodesWithoutGroup | src/app/pages/browse/browse.component.ts:90-92 | A key without a group has no episodes. |
| Browse.WithSeasonCounts | src/app/pages/browse/browse.component.ts:95-97 | Each group's season count is the number of distinct seasons among its episodes. Nothing else changes. |
| Browse.ShowGroups | src/app/pages/browse/browse.component.ts:85-102 | The groups are ordered by key, and every one shown has a name containing the search text, ignoring case. |
| Browse.KeySorted | src/app/pages/browse/browse.component.ts:101 | Sorting by key gives a key-ordered list. |
| Sorting.SortBySnoc | src/app/pages/browse/browse.component.ts:101 | Sorting a sequence with one more element at the end is inserting that element into the sorted rest. |
| Sorting.SortByStable | src/app/pages/browse/browse.component.ts:101 | The sort is stable: elements that tie under the comparator come out in the order they went in. |
| Browse.ShowGroupsMembers | src/app/pages/browse/browse.component.ts:98-101 | A group is shown exactly when grouping produced it and its name matches the search. |
| Browse.ShowGroupsSpec | src/app/pages/browse/browse.component.ts:85-102 | Every shown group holds exactly its key's episodes and counts their distinct seasons. No key is shown twice with different contents. |
| Browse.GroupsStartUncounted | src/app/pages/browse/browse.component.ts:91 | Groups are created with a season count of 0. |
| Browse.ShownKeysIdentify | src/app/pages/browse/browse.component.ts:99-101 | Filtering and sorting keep the keys distinct. |
| Browse.SeasonsSnoc | src/app/pages/browse/browse.component.ts:96 | A further episode adds its season to the set. |
| Browse.InSeasonSnoc | src/app/pages/browse/browse.component.ts:108-112 | A further episode joins only its own season's list. |
| Browse.InSeasonNone | src/app/pages/browse/browse.component.ts:108-112 | A season no episode has is empty. |
| Browse.BucketSpec | src/app/pages/browse/browse.component.ts:104-114 | The buckets are exactly the seasons present. Each holds that season's episodes in order. |
| Browse.SeasonEpisodes | src/app/pages/browse/browse.component.ts:116-122 | With no season selected there are no episodes. Otherwise the result is a permutation of that season's bucket (empty when absent), sorted by episode number. |
| Browse.SeasonEpisodesOfShow | src/app/pages/browse/browse.component.ts:104-122 | A season's episodes are that show's episodes of the season, reordered. |
| Browse.MinExists | src/app/pages/browse/browse.component.ts:132 | A non-empty set of season numbers has a least element. |
| Browse.MinOfTwo | src/app/pages/browse/browse.component.ts:132 | The least element of a set is the smaller of one element and the least of the rest. |
| Browse.Min | src/app/pages/browse/browse.component.ts:132 | The least element, in the set. |
| Browse.Ascending | src/app/pages/browse/browse.component.ts:132 | The numbers of a set, each once, strictly ascending. |
| Browse.SeasonNumbers | src/app/pages/browse/browse.component.ts:131-133 | The season numbers listed are exactly the buckets' keys. |
| Browse.SeasonNumbersOfShow | src/app/pages/browse/browse.component.ts:95-133 | For a shown group, the season numbers are its distinct seasons, and there are as many as its season count. |
| Browse.DistinctLength | src/app/pages/browse/browse.component.ts:132 | A strictly ascending list of a set's elements is as long as the set. |
| Browse.SeasonPoster | src/app/pages/browse/browse.component.ts:146-156 | A stored poster for the season wins. Otherwise the show's poster is used, or none without a show. |
| Browse.FilteredMovies | src/app/pages/browse/browse.component.ts:78-83 | Exactly the movies whose lower-cased title contains the lower-cased search text. |
| Browse.FilteredMoviesEmptySearch | src/app/pages/browse/browse.component.ts:81 | An empty search keeps every movie. |
| Browse.RowItems | src/app/pages/browse/browse.component.ts:166-172 | A filter collection shows searched movies that match its filter. Any other collection shows exactly the library items whose id it lists, in library order. |
| Browse.RowItemsFilterComplete | src/app/pages/browse/browse.component.ts:166-169 | Every searched movie that matches the filter is shown. |
| RowOrder.Merge | src/app/services/row-order.service.ts:19-32 | The merged order holds exactly the current ids. |
| RowOrder.MergeKeepsSaved | src/app/services/row-order.service.ts:23-24 | The merged order opens with the saved ids that still exist, in saved order. |
| RowOrder.MergeAppendsNew | src/app/services/row-order.service.ts:25-29 | A current id the saved order does not mention comes after all of them. |
| RowOrder.MergeIdempotent | src/app/services/row-order.service.ts:19-32 | Merging again with the same ids changes nothing. |
| RowOrder.MergePermutes | src/app/services/row-order.service.ts:19-32 | Without duplicates in either input, the result is a permutation of the current ids. |
| RowOrder.Strings | src/app/services/row-order.service.ts:38-40 | An order is kept as the same ids, as strings. |
| RowOrder.Load | src/app/services/row-order.service.ts:5-17 | No stored value, text that does not parse, or a value that is not an array give the empty order with no write. Only an old `{kind, id}` array is written back, as its ids. Otherwise the order is the stored array. |
| RowOrder.MigrationSettles | src/app/services/row-order.service.ts:9-14 | The old format is rewritten once: reading the rewritten array gives the same order with no further write. |
| RowOrder.SaveOrder | src/app/services/row-order.service.ts:38-41 | The order is kept in memory, and written to storage unless the write throws. |
| RowOrder.SaveLoadRoundTrip | src/app/services/row-order.service.ts:5-41 | A saved order is read back unchanged. |
| Collections.Genres | src/app/services/collections.service.ts:83 | One genre per comma-separated part. |
| Collections.DecadeOf | src/app/services/collections.service.ts:92 | The decade is a multiple of ten, at most the year and within ten of it. |
| Collections.GenreAtMeans | src/app/services/collections.service.ts:83-84 | A part matches when, trimmed and lower-cased, it equals the lower-cased value. |
| Collections.GenreMatch | src/app/services/collections.service.ts:81-85 | A genre collection matches exactly the items with a non-empty genre, one of whose comma-separated parts matches. |
| Collections.SingleGenreMatch | src/app/services/collections.service.ts:81-85 | A single genre matches exactly when it equals the value, ignoring case and surrounding blanks. |
| Collections.DecadeMatch | src/app/services/collections.service.ts:90-94 | A decade collection matches exactly when its value is the decade written in decimal. |
| Collections.NoYearNoDecade | src/app/services/collections.service.ts:90-91 | An item with no year (or year 0) matches no decade collection. |
| Collections.DirectorMatch | src/app/services/collections.service.ts:86-89 | A director containing the value matches, ignoring case. |
| Collections.ApplyOverridesIds | src/app/services/collections.service.ts:37-41 | The shown ids are the ids that are not hidden, in their original order. |
| Collections.ApplyOverrides | src/app/services/collections.service.ts:37-41 | No hidden collection is shown, and nothing is added. |
| Collections.IdsCons | src/app/services/collections.service.ts:37-41 | The ids of a list are its first id followed by the rest's. |
| Collections.ApplyOverridesMembers | src/app/services/collections.service.ts:37-41 | A collection is shown exactly when it is one that is not hidden, under its override name when that is non-empty. |
| Collections.NoOverridesIdentity | src/app/services/collections.service.ts:37-41 | Without overrides the list is shown as it is. |
| Collections.Refresh | src/app/services/collections.service.ts:208-211 | What is shown is the server collections then the filter collections, after overrides. |
| Collections.Find | src/app/services/collections.service.ts:134-141 | A collection with the id, when one exists. |
| Collections.WithoutId | src/app/services/collections.service.ts:136-145 | Every collection with the id is dropped and every other kept. |
| Collections.Renamed | src/app/services/collections.service.ts:159-169 | Exactly the collections with the id take the new name. |
| Collections.HideOverride | src/app/services/collections.service.ts:147 | The id becomes hidden and keeps any override name. The other overrides are unchanged. |
| Collections.NameOverride | src/app/services/collections.service.ts:171 | The id takes the name and keeps whether it was hidden. The other overrides are unchanged. |
| Collections.RemoveCollection | src/app/services/collections.service.ts:132-152 | A filter collection is deleted locally. Otherwise a manual collection is deleted, with a request to the server. An automatic one is only hidden. An unknown id changes nothing. |
| Collections.RenameCollection | src/app/services/collections.service.ts:154-176 | A filter collection is renamed locally. A manual one is renamed, with a request to the server. An automatic one gets an override name. An unknown id changes nothing. |
| Collections.RestoreOverride | src/app/services/collections.service.ts:178-183 | The id is no longer hidden. Its override survives only when it has a name. The other overrides are unchanged. |
| Collections.RestoreCollection | src/app/services/collections.service.ts:178-187 | Restoring only changes the overrides and refreshes what is shown. |
| Collections.HideRestoreRoundTrip | src/app/services/collections.service.ts:147-183 | Hiding and then restoring a collection without an override leaves no override. |
| Collections.RestoreKeepsName | src/app/services/collections.service.ts:171-183 | A renamed, hidden, then restored automatic collection keeps its new name. |
| Collections.RemovedAutoNotShown | src/app/services/collections.service.ts:147-151 | Removing an automatic collection takes it off the shown list. |
| Collections.HiddenCollections | src/app/services/collections.service.ts:109-112 | Exactly the collections that are not manual and whose override hides them. |
| Collections.ShownOrHidden | src/app/services/collections.service.ts:109-112 | A collection that is not manual is listed as hidden exactly when it is not shown. |
| Collections.Patched | src/app/services/collections.service.ts:201 | A patch keeps the collection's id, items and kind. An empty patch changes nothing. |
| Collections.UpdateFilterCollection | src/app/services/collections.service.ts:199-204 | The filter collections keep their ids and order. Those with another id are unchanged, and nothing else changes. |
| Collections.PatchNameIsRename | src/app/services/collections.service.ts:199-204 | Patching only a filter collection's name is renaming it. |
| Collections.AddFilterCollection | src/app/services/collections.service.ts:191-197 | A new empty filter collection is appended with the given id, name and rule. Nothing else changes. |
| ColorUtils.Substring | src/app/utils/color.utils.ts:21-23 | Within bounds it is the slice. Past the end it is empty. |
| ColorUtils.HexToRgb | src/app/utils/color.utils.ts:18-25 | Empty text gives three `NaN` components. |
| ColorUtils.Clamp | src/app/utils/color.utils.ts:28 | The result lies in 0..255. In-range values are kept, and out-of-range values go to the nearer bound. |
| ColorUtils.Hex2 | src/app/utils/color.utils.ts:28 | Exactly two digits, high then low, zero-padded. |
| ColorUtils.RgbToHex | src/app/utils/color.utils.ts:27-30 | Always `#` followed by six lower-case hexadecimal digits. |
| ColorUtils.SixLowerDigits | src/app/utils/color.utils.ts:29 | Three two-digit pairs after `#` are six lower-case digits. |
| ColorUtils.RgbToHexClamps | src/app/utils/color.utils.ts:27-30 | Out-of-range components are written as the nearest bound, and they read back that way. |
| ColorUtils.ParseTwoHex | src/app/utils/color.utils.ts:21-23 | Two hexadecimal digits parse to their value. |
| ColorUtils.HexDigitNotSpace | src/app/utils/color.utils.ts:21-23 | A hex digit is not whitespace, a sign, or part of a `0x` prefix. |
| ColorUtils.SixDigits | src/app/utils/color.utils.ts:19-23 | After a leading `#`, the components are read from characters 0-2, 2-4 and 4-6. |
| ColorUtils.Hex2Parses | src/app/utils/color.utils.ts:21-28 | A component written as two digits reads back as itself. |
| ColorUtils.RgbRoundTrip | src/app/utils/color.utils.ts:18-30 | Components in 0..255 survive writing then reading. |
| ColorUtils.ThreePairs | src/app/utils/color.utils.ts:21-23 | Three pairs sit at positions 0-2, 2-4 and 4-6. |
| ColorUtils.HexRoundTrip | src/app/utils/color.utils.ts:18-30 | A well-formed `#rrggbb` colour survives reading then writing, lower-cased. |
| ColorUtils.HexReads | src/app/utils/color.utils.ts:18-25 | A well-formed colour reads as its three pair values. |
| ColorUtils.BodyPairs | src/app/utils/color.utils.ts:21-23 | The pairs of the body are the colour's characters 1-2, 3-4 and 5-6. |
| ColorUtils.HexWrites | src/app/utils/color.utils.ts:27-30 | Writing the pair values gives back the colour lower-cased. |
| ColorUtils.PairToHex | src/app/utils/color.utils.ts:28 | Two digits read as a value are written back lower-cased. |
| SpatialNavigation.Focusable | src/app/tv/services/spatial-navigation.service.ts:129-143 | Exactly the visible matched elements. |
| SpatialNavigation.FocusableKeepsOrder | src/app/tv/services/spatial-navigation.service.ts:129-143 | The filter keeps document order: the result for a document is the result for its first part followed by the result for the rest, and a single element is kept exactly when it is visible. |
| SpatialNavigation.Score | src/app/tv/services/spatial-navigation.service.ts:107-118 | The score is never negative. |
| SpatialNavigation.FindNextFocusable | src/app/tv/services/spatial-navigation.service.ts:80-127 | Picks the first candidate with the least score, ahead by more than 5 pixels. Picks nothing exactly when no element is ahead. |
| SpatialNavigation.BestUnique | src/app/tv/services/spatial-navigation.service.ts:120-123 | The strict `<` makes the choice unique. |
| SpatialNavigation.NextFocus | src/app/tv/services/spatial-navigation.service.ts:80-143 | The next element is visible, is not the current one, and lies ahead. It is the best such element, and there is none exactly when nothing visible is ahead. |
| SpatialNavigation.ShiftAll | src/app/tv/services/spatial-navigation.service.ts:84-95 | Moves every element by the same offset. |
| SpatialNavigation.ShiftKeepsGeometry | src/app/tv/services/spatial-navigation.service.ts:94-118 | Moving both rectangles keeps direction and score. |
| SpatialNavigation.TranslationInvariant | src/app/tv/services/spatial-navigation.service.ts:80-127 | Scrolling the whole page does not change which element is chosen. |
| SpatialNavigation.BackRoute | src/app/tv/services/spatial-navigation.service.ts:145-152 | The back route is `/browse`, `/setup`, or comes from a player URL. |
| SpatialNavigation.BackRouteSpec | src/app/tv/services/spatial-navigation.service.ts:145-152 | Back from a player goes to the same item's detail page. Back from a detail page goes to `/browse`, and from `/login` to `/setup`. Everything else goes to `/browse`. |
| SpatialNavigation.BackTwiceFromPlayer | src/app/tv/services/spatial-navigation.service.ts:145-152 | Two backs from a player reach `/browse`. |
| SpatialNavigation.ArrowDirection | src/app/tv/services/spatial-navigation.service.ts:57 | Exactly the four arrow keys have a direction. |
| SpatialNavigation.KeyDown | src/app/tv/services/spatial-navigation.service.ts:47-78 | Back keys navigate back. Arrows with nothing focused focus the first element. Left and right in an input are left alone. A move goes to a visible candidate ahead, and that candidate is the best-scoring one among the focusable elements. Otherwise, for an arrow with an element focused, focus moves exactly when some visible matched element is a candidate, and the key is left unhandled when none is. |
| DisplaySettings.Update | src/app/services/display-settings.service.ts:26-28 | The patch's fields win. The other previous fields stay. |
| DisplaySettings.UpdateLaws | src/app/services/display-settings.service.ts:26-28 | Applying a patch twice is applying it once. Two patches in a row are one merged patch. |
| DisplaySettings.Migrate | src/app/services/display-settings.service.ts:51-55 | Afterwards the old field is present only alongside the new one. Nothing changes when there is nothing to migrate. |
| DisplaySettings.MigrateIdempotent | src/app/services/display-settings.service.ts:51-55 | Migrating twice is migrating once. |
| DisplaySettings.Indexed | src/app/services/display-settings.service.ts:56 | Spreading an array gives exactly its indices as keys. |
| DisplaySettings.NatToStringInjective | src/app/services/display-settings.service.ts:56 | Distinct indices are distinct keys. |
| DisplaySettings.Load | src/app/services/display-settings.service.ts:46-60 | Every default field is present. Nothing stored gives exactly the defaults. |
| DisplaySettings.LoadFallsBack | src/app/services/display-settings.service.ts:47-59 | Text that fails to parse, or a primitive, gives the defaults. |
| DisplaySettings.LoadOverrides | src/app/services/display-settings.service.ts:56 | Stored fields override the defaults, and the other defaults stay. |
| DisplaySettings.LoadMigrates | src/app/services/display-settings.service.ts:51-56 | `roundedPosters` becomes `posterCorners` (`small` when truthy, else `none`) and is removed. Other fields are kept. |
| DisplaySettings.SaveThenLoad | src/app/services/display-settings.service.ts:19-60 | Settings that were persisted load back unchanged. |
| DisplaySettings.UpdateKeepsComplete | src/app/services/display-settings.service.ts:26-60 | After loading and any update, every default field and `posterCorners` are present. |
| DisplaySettings.FontToClass | src/app/services/display-settings.service.ts:6-10 | `serif` and `mono` get their own classes. Anything else is sans. |
| DisplaySettings.FontClass | src/app/services/display-settings.service.ts:30-44 | A font field's class, or sans when the field is not text. |
| DisplaySettings.DefaultFonts | src/app/services/display-settings.service.ts:30-44 | With the default settings the heading is serif, title and body are sans, and details are mono. |
| TvApi.StripTrailingSlashes | src/app/tv/services/tv-api.service.ts:19 | Removes exactly the trailing run of `/`. |
| TvApi.StripIdempotent | src/app/tv/services/tv-api.service.ts:19 | Stripping twice is stripping once. |
| TvApi.Slashes | src/app/tv/services/tv-api.service.ts:19 | A run of `n` slashes. |
| TvApi.StripSlashes | src/app/tv/services/tv-api.service.ts:19 | Any number of slashes appended is removed again. |
| TvApi.SetServerUrl | src/app/tv/services/tv-api.service.ts:17-22 | Stores the stripped URL. The base is that URL followed by `/api`. |
| TvApi.StartBase | src/app/tv/services/tv-api.service.ts:9-15 | A stored URL gives its `/api` base. Otherwise the default `/api` is used. |
| TvApi.RestartKeepsBase | src/app/tv/services/tv-api.service.ts:9-22 | After a restart the base is the one set before. |
| TvApi.SetServerUrlStable | src/app/tv/services/tv-api.service.ts:17-22 | Setting the stored URL again changes nothing. |
| TvApi.StreamUrl | src/app/tv/services/tv-api.service.ts:29-31 | The stream URL starts with the base and `/stream/`. |
| TvApi.SubtitleUrl | src/app/tv/services/tv-api.service.ts:33-35 | A subtitle URL extends its stream URL with `/subtitles/`. |
| TvApi.StreamUrlReadsBack | src/app/tv/services/tv-api.service.ts:29-31 | The id reads back from the stream URL. |
| TvApi.SubtitleUrlReadsBack | src/app/tv/services/tv-api.service.ts:33-35 | The media id and the track index both read back from the subtitle URL. |
| TvApi.ReadsAfter | src/app/tv/services/tv-api.service.ts:30-34 | A number followed by neither a digit nor an `x` reads back under `parseInt` without a radix. |
| SettingsPage.Loaded | src/app/pages/settings/settings.component.ts:87-94 | Loading takes the paths as both current and original, and the masked key as shown and loaded. |
| SettingsPage.RemovePath | src/app/pages/settings/settings.component.ts:119-124 | Removes every copy of the path. Other paths stay, and nothing else changes. |
| SettingsPage.RemovePathCounts | src/app/pages/settings/settings.component.ts:122 | The other paths keep their multiplicities. |
| SettingsPage.KeepOutCounts | src/app/pages/settings/settings.component.ts:122 | Filtering one value out zeroes its count and keeps the rest. |
| SettingsPage.AddIfAbsent | src/app/pages/settings/settings.component.ts:131-146 | A listed path changes nothing. A new one is appended. |
| SettingsPage.AddIfAbsentLaws | src/app/pages/settings/settings.component.ts:131 | Keeps a list free of repeats, and is idempotent. |
| SettingsPage.AddManualPath | src/app/pages/settings/settings.component.ts:126-134 | A blank entry changes nothing. Otherwise the trimmed path is added once and the entry cleared. |
| SettingsPage.AddManualPathListed | src/app/pages/settings/settings.component.ts:126-134 | Re-entering a listed path only clears the entry. |
| SettingsPage.PickFolderReply | src/app/pages/settings/settings.component.ts:136-158 | A chosen folder is added once. A cancel or empty path adds nothing. An error shows the server's message and the hint. |
| SettingsPage.PathsChangedIsInequality | src/app/pages/settings/settings.component.ts:180-182 | The change test is list inequality. |
| SettingsPage.SavePayloadAsWritten | src/app/pages/settings/settings.component.ts:184-187 | Always sends the shown key. Sends the paths exactly when they changed. |
| SettingsPage.SavePayload | src/app/pages/settings/settings.component.ts:184-187 | Sends the key only when it was edited. The paths are sent as before. |
| SettingsPage.SaveSucceeded | src/app/pages/settings/settings.component.ts:175-195 | The list captured when Save was pressed becomes the original. The message says a scan started exactly when that list differed from the original then. Nothing else on the page changes. |
| SettingsPage.EditDuringSaveIsSentNext | src/app/pages/settings/settings.component.ts:175-195 | Folders edited while a save is in flight are sent by the next save. |
| SettingsPage.SaveFailed | src/app/pages/settings/settings.component.ts:196-199 | Shows the server's error, else the transport's, else the fixed text. Nothing else changes. |
| SettingsPage.SaveTwiceSendsPathsOnce | src/app/pages/settings/settings.component.ts:179-195 | After a save, saving again sends no paths and starts no scan. |
| SettingsPage.UntouchedSaveStoresMask | src/app/pages/settings/settings.component.ts:175-189 | Saving with the key untouched stores and exports the mask in place of the real key. |
| SettingsPage.MaskReplacesKey | src/app/pages/settings/settings.component.ts:175-189 | A concrete store whose key is lost on an untouched save. |
| SettingsPage.UntouchedSaveKeepsKey | src/app/pages/settings/settings.component.ts:184-187 | With the key sent only when edited, an untouched save keeps the stored key. |
| SettingsPage.EditedKeyIsStored | src/app/pages/settings/settings.component.ts:184-189 | An edited key is stored and exported. |
| CollectionManager.Remove | src/app/components/collection-manager/collection-manager.component.ts:91 | `splice(from, 1)` removes one element: the rest is the original minus that element. |
| CollectionManager.Move | src/app/components/collection-manager/collection-manager.component.ts:90-92 | The moved row lands at the target position. The result is a permutation of the rows, and the other rows keep their relative order. |
| CollectionManager.MoveBack | src/app/components/collection-manager/collection-manager.component.ts:90-92 | Moving a row back to where it came from restores the order. |
| CollectionManager.OnDrop | src/app/components/collection-manager/collection-manager.component.ts:87-95 | Nothing is saved without a drag source or when dropping in place. Otherwise the saved order is a permutation with the dragged row at the target and the other rows in their relative order. |
| CollectionManager.Rows | src/app/components/collection-manager/collection-manager.component.ts:119 | The panel's rows are exactly the shown collections' ids. |
| CollectionManager.MergeStable | src/app/services/row-order.service.ts:19-32 | An order that already lists exactly the current ids is kept as it is. |
| CollectionManager.DeleteEntry | src/app/components/collection-manager/collection-manager.component.ts:117-120 | Deleting asks the service to remove the collection, and saves the rows without that id. |
| CollectionManager.DeleteEntryRows | src/app/components/collection-manager/collection-manager.component.ts:117-120 | When the collection is gone from what is shown, the saved order is exactly the rows shown next, without the id. |
| CollectionManager.Label | src/app/components/collection-manager/collection-manager.component.ts:57-59 | The name of a shown collection with the id, or empty text. |
| CollectionManager.CommitEdit | src/app/components/collection-manager/collection-manager.component.ts:107-113 | A rename is made exactly when the trimmed text is non-empty and differs from the current name, and then with the trimmed text. |
| CollectionManager.CommitSameName | src/app/components/collection-manager/collection-manager.component.ts:109 | Committing the unchanged name renames nothing. |
| CollectionManager.Subtitle | src/app/components/collection-manager/collection-manager.component.ts:61-65 | Only a filter collection has a subtitle. It starts with the filter type and `: `, and a decade ends in `s`. |
| CollectionManager.ItemCount | src/app/components/collection-manager/collection-manager.component.ts:76-80 | There is no count for an unknown id or a filter collection. Otherwise it is the number of listed items. |
| CollectionManager.RowKinds | src/app/components/collection-manager/collection-manager.component.ts:61-80 | An automatic collection has a count and no subtitle. A row has a subtitle exactly when it has no count. |
| CollectionManager.SetFilterType | src/app/components/collection-manager/collection-manager.component.ts:130-133 | Choosing a filter type clears the value and keeps the label. |
| CollectionManager.AddFromForm | src/app/components/collection-manager/collection-manager.component.ts:135-146 | A blank label or value changes nothing. Otherwise the filter collection is added with trimmed label and value, and the form is reset. |
| CollectionManager.AddedFilterTrimmed | src/app/components/collection-manager/collection-manager.component.ts:136-141 | The added collection's name and value are trimmed, and the name is non-empty. |
| Catalog.ItemIndex | server/src/db/queries.ts:42-45 | The row with that key, or none when no row has it. |
| Catalog.IndexOfKey | server/src/db/queries.ts:42-45 | With keys in order, the lookup finds the one row with that key. |
| Catalog.Allowed | server/src/db/queries.ts:26-33 | The change is cut down to the allow-listed columns, with values unchanged. |
| Catalog.PatchRow | server/src/db/queries.ts:37 | Only the addressed row's patched columns change. The key stays. |
| Catalog.UpdateMediaItem | server/src/db/queries.ts:31-38 | The update fails exactly when a stored row is addressed and `title` is set to `NULL`, which breaks the `NOT NULL` constraint of server/src/db/schema.ts:29. With no allowed column, nothing changes. Otherwise only the allowed columns of the addressed row change, and no key or other table does. |
| Catalog.UpdateKeepsProtected | server/src/db/queries.ts:26-33 | A successful update never writes a column outside the allow list. |
| Catalog.UpdateKeepsValid | server/src/db/queries.ts:31-38 | A successful update keeps keys ordered and references intact. |
| Catalog.ToggleFlag | server/src/db/queries.ts:40-60 | A missing item answers false and changes nothing. Otherwise the flag becomes 1 exactly when it was falsy, and the answer says whether it is now 1. |
| Catalog.ToggleFlagTwice | server/src/db/queries.ts:40-60 | Toggling a 0/1 flag twice restores the store and gives opposite answers. |
| Catalog.Scanned | server/src/db/queries.ts:136-147 | An update by the scanner writes exactly the scanned columns. |
| Catalog.PathOwner | server/src/db/queries.ts:131-133 | The row holding a non-null path, or none. |
| Catalog.NewRow | server/src/db/queries.ts:151-160 | A new row holds the scanned columns and the path. It is not a favourite, not in the watchlist, and is stamped with the text of `datetime('now')`, the column's default. |
| Catalog.Upsert | server/src/db/queries.ts:129-162 | A known path keeps its row's id and has the scanned columns overwritten. An unknown path gets a new row under the next key. |
| Catalog.UpsertOnePerPath | server/src/db/queries.ts:129-162 | The store stays valid, and exactly one row holds the path: the one whose id is returned. |
| Catalog.UpsertExisting | server/src/db/queries.ts:135-148 | Updating a known path keeps the store valid and the path on that row alone. |
| Catalog.SameShapeValid | server/src/db/queries.ts:136-147 | Rewriting columns other than the key and path keeps a store valid. |
| Catalog.UpsertNew | server/src/db/queries.ts:151-161 | Inserting a new path keeps the store valid, with the path on the new row alone. |
| Catalog.AppendKeys | server/src/db/queries.ts:151-161 | A row added under the next key keeps keys increasing. |
| Catalog.AppendPaths | server/src/db/queries.ts:151-161 | A row with a new path keeps paths unique. |
| Catalog.AppendReferences | server/src/db/queries.ts:151-161 | Adding rows keeps every reference valid. |
| Catalog.UpsertIdempotent | server/src/db/queries.ts:129-162 | Scanning the same file twice equals scanning it once. |
| Catalog.UpsertedRow | server/src/db/queries.ts:129-162 | After an upsert the returned row holds the path and every scanned column. |
| Catalog.RescanSame | server/src/db/queries.ts:136-147 | Rewriting columns with their own values changes nothing. |
| Catalog.FirstOwner | server/src/db/queries.ts:131-133 | With unique paths, the owner of a path is its one row. |
| Catalog.DeleteItem | server/src/db/queries.ts:174-179 | The item goes, together with its watch progress, its collection memberships and its favourite and watchlist rows. Every other row stays. |
| Catalog.DeleteItemValid | server/src/db/queries.ts:174-179 | Deleting an item keeps the store valid. |
| Catalog.KeepIncreasing | server/src/db/queries.ts:178 | Removing rows keeps keys increasing. |
| Catalog.PathsUniqueOrdered | server/src/db/queries.ts:131-133 | Unique paths can be checked on ordered pairs. |
| Catalog.KeepPaths | server/src/db/queries.ts:178 | Removing rows keeps paths unique. |
| Catalog.GetWatchProgress | server/src/db/queries.ts:181-185 | The record of that user and item, when there is one. |
| Catalog.UpsertWatchProgress | server/src/db/queries.ts:187-201 | A missing item is refused by the foreign key. Otherwise exactly the one (user, item) key is added or replaced. |
| Catalog.WatchProgressGetAfterSet | server/src/db/queries.ts:181-201 | The record reads back as written, stamped now. Other pairs are unchanged, and the store stays valid. |
| Catalog.WatchProgressOverwrites | server/src/db/queries.ts:187-201 | A later write replaces an earlier one completely. |
| Catalog.Watching | server/src/db/queries.ts:118-122 | Exactly the user's records that are not completed and have a positive position, with their items. |
| Catalog.NewerFirstPreorder | server/src/db/queries.ts:123 | Ordering by update time, newest first, is a total preorder. |
| Catalog.ContinueWatching | server/src/db/queries.ts:116-127 | At most 20 records, newest first, each an in-progress record of the user. |
| Catalog.ContinueWatchingComplete | server/src/db/queries.ts:116-127 | Nothing in progress is left out unless the list is full of records updated no earlier. |
| Catalog.CreateCollection | server/src/db/queries.ts:225-229 | A new empty collection is added under the next key. Nothing else changes. |
| Catalog.DeleteCollection | server/src/db/queries.ts:231-233 | The collection goes, together with its memberships. Every other collection stays. |
| Catalog.RenameCollection | server/src/db/queries.ts:235-237 | Exactly the collection with that key takes the new name. |
| Catalog.AddItemToCollection | server/src/db/queries.ts:239-243 | The pair is added to the set of memberships. A missing collection or item is refused by the foreign keys. |
| Catalog.RemoveItemFromCollection | server/src/db/queries.ts:245-249 | Exactly that pair is removed. |
| Catalog.MembershipLaws | server/src/db/queries.ts:239-249 | Adding twice equals adding once, and removing a newly added pair restores the store. |
| Catalog.GetSetting | server/src/db/queries.ts:251-256 | The stored value of the key, or none. |
| Catalog.SetSetting | server/src/db/queries.ts:258-263 | The key is set, and no other table changes. |
| Catalog.SettingGetAfterSet | server/src/db/queries.ts:251-263 | A key reads back as set, a later set overwrites, and other keys are unchanged. |
| LibraryRoutes.IdsOf | server/src/routes/library.ts:257-265 | One id per item, in order. |
| LibraryRoutes.TypeFilter | server/src/routes/library.ts:36-42 | Without a type (or with an empty one) every item is listed. Otherwise exactly the items of that type are. |
| LibraryRoutes.WithSortTitle | server/src/routes/library.ts:105-109 | A truthy title without a truthy `sort_title` gets the sort title made from it. Any other body is passed on unchanged. |
| LibraryRoutes.EditItem | server/src/routes/library.ts:98-112 | The answer is 200, 404 or 500. It is 404 exactly when the id does not parse (`parseInt` without a radix) or names no item. Any answer other than 200 leaves the store unchanged. |
| LibraryRoutes.EditNullTitle | server/src/routes/library.ts:105-110 | A `null` title for a stored item answers 500 and changes nothing, because the update breaks `NOT NULL`. |
| LibraryRoutes.EditUnknownItem | server/src/routes/library.ts:102-104 | An id that does not parse, or names no item, answers 404. |
| LibraryRoutes.EditSucceeds | server/src/routes/library.ts:102-111 | A successful edit names a stored item, and the store update with the adjusted fields succeeds and is its result. |
| LibraryRoutes.EditSortTitle | server/src/routes/library.ts:105-110 | After retitling, the row's `sort_title` is the one supplied, or else the one made from the new title. |
| LibraryRoutes.AdjustedSortTitle | server/src/routes/library.ts:107-109 | A text title always leaves a sort title in the fields. |
| LibraryRoutes.EditApplies | server/src/routes/library.ts:102-111 | With a text title, the edit answers 200 with the store updated. |
| LibraryRoutes.RootOf | server/src/routes/library.ts:231-236 | The first library root the path lies under, or none. |
| LibraryRoutes.FolderBelowRoot | server/src/routes/library.ts:226-249 | Only movies are grouped. A movie's folder lies directly below a root, and the file lies below the folder. |
| LibraryRoutes.FolderShape | server/src/routes/library.ts:238-246 | A grouped path is `<root>/<folder>/<rest>`, and its folder is `<root>/<folder>`. |
| LibraryRoutes.FolderOfRoot | server/src/routes/library.ts:231-246 | The folder is the root joined with the first segment of the relative path. |
| LibraryRoutes.SplitBelowRoot | server/src/routes/library.ts:238-246 | A path below a root splits into root, first segment and rest. |
| LibraryRoutes.JoinBelow | server/src/routes/library.ts:246 | Joining a root without a trailing separator puts one `/` between. |
| LibraryRoutes.PrefixSplit | server/src/routes/library.ts:234 | A path with a prefix is the prefix followed by the rest. |
| LibraryRoutes.SplitAtFirst | server/src/routes/library.ts:240-246 | A relative path with a separator splits at its first one. |
| LibraryRoutes.Tagged | server/src/routes/library.ts:227-249 | Each item is tagged with its folder, if any. |
| LibraryRoutes.TaggedSnoc | server/src/routes/library.ts:227-249 | The items are tagged one by one, in listing order. |
| LibraryRoutes.FoldersStep | server/src/routes/library.ts:247-248 | A further item adds only its own folder. |
| LibraryRoutes.Folders | server/src/routes/library.ts:226-249 | The map's keys are exactly the folders some item has. |
| LibraryRoutes.FirstSeen | server/src/routes/library.ts:247 | Keys are kept once each, in insertion order. |
| LibraryRoutes.MembersOf | server/src/routes/library.ts:247-248 | A folder's list holds exactly the ids of its items. |
| LibraryRoutes.MembersMeanFolder | server/src/routes/library.ts:247-248 | A non-empty list belongs to a folder key. |
| LibraryRoutes.NameLePreorder | server/src/routes/library.ts:254 | Ordering by name is a total preorder. |
| LibraryRoutes.FolderCollection | server/src/routes/library.ts:253 | A folder collection is identified by its folder, named by the folder's last segment, and is not manual. |
| LibraryRoutes.SharedFolders | server/src/routes/library.ts:251-252 | Exactly the folders holding two or more items. |
| LibraryRoutes.FolderCollections | server/src/routes/library.ts:251-253 | Exactly one collection per folder of two or more items. |
| LibraryRoutes.FolderCollectionsOf | server/src/routes/library.ts:253 | Mapping the keys gives exactly their collections. |
| LibraryRoutes.AutoCollections | server/src/routes/library.ts:251-254 | Automatic collections are sorted by name, and none is manual. |
| LibraryRoutes.AutoNotManual | server/src/routes/library.ts:253 | Folder collections are not manual. |
| LibraryRoutes.AutoCollectionsCover | server/src/routes/library.ts:226-254 | A grouped movie appears in its folder's collection exactly when the folder has two or more items. Otherwise that folder has no collection. |
| LibraryRoutes.NewerAddedPreorder | server/src/routes/library.ts:258 | Ordering newest added first is a total preorder. |
| LibraryRoutes.RecentlyAdded | server/src/routes/library.ts:257-260 | At most eight items, sorted newest added first, each one from the library. |
| LibraryRoutes.RecentlyAddedNewest | server/src/routes/library.ts:257-260 | Whatever is left out was added no later than anything shown. |
| LibraryRoutes.NewlyIndexedFirst | server/src/db/schema.ts:45 | A file indexed for the first time, at a time later than every stored `added_at`, heads "Recently Added". |
| LibraryRoutes.NewestFirst | server/src/routes/library.ts:257-260 | An item added after every other one comes first in "Recently Added". |
| LibraryRoutes.NewReleases | server/src/routes/library.ts:262-265 | Exactly the movies whose year is at least last year. |
| LibraryRoutes.SpecialCollections | server/src/routes/library.ts:267-272 | "Recently Added" always comes first. "New Releases" follows exactly when it is non-empty. |
| LibraryRoutes.CollectionNameLePreorder | server/src/db/queries.ts:216 | Ordering collections by name is a total preorder. |
| LibraryRoutes.ItemIdsOf | server/src/db/queries.ts:218-221 | A collection's items are exactly its membership rows. |
| LibraryRoutes.AsCollection | server/src/routes/library.ts:275-280 | A stored collection is reported under its id as text, with its name, as manual. |
| LibraryRoutes.ByName | server/src/db/queries.ts:216 | The stored collections, reordered by name. |
| LibraryRoutes.ManualCollections | server/src/routes/library.ts:275-280 | One reported collection per stored one, in name order. |
| LibraryRoutes.ManualCollectionsSpec | server/src/routes/library.ts:275-280 | Each reported manual collection's id parses back to the stored key. Its items are exactly its memberships, and names ascend. |
| LibraryRoutes.IntToStringParses | server/src/routes/library.ts:276 | A key written as text parses back to the key under `parseInt` without a radix. |
| LibraryRoutes.NatParses | server/src/routes/library.ts:276 | A natural written as text parses back to itself under `parseInt` without a radix. |
| LibraryRoutes.NegativeParses | server/src/routes/library.ts:276 | A negative number written as text parses back to itself under `parseInt` without a radix. |
| LibraryRoutes.CollectionsResponse | server/src/routes/library.ts:219-283 | The response lists the special collections, then the automatic ones, then the manual ones. A collection is manual exactly when it is in the last part. |
| LibraryRoutes.ConcatFlags | server/src/routes/library.ts:282 | Concatenating the three parts keeps each in place. |
| LibraryRoutes.CreateRoute | server/src/routes/library.ts:286-291 | A missing or blank name answers 400 and stores nothing. Otherwise the trimmed name is stored as a new collection. |
| LibraryRoutes.RenameRoute | server/src/routes/library.ts:294-301 | The id is read by `parseInt` without a radix. A bad id or a blank name answers 400 and stores nothing. Otherwise the collection takes the trimmed name. |
| LibraryRoutes.DeleteRoute | server/src/routes/library.ts:304-309 | The id is read by `parseInt` without a radix. A bad id answers 400. Otherwise the collection is deleted. |
| LibraryRoutes.AddItemRoute | server/src/routes/library.ts:312-321 | The id is read by `parseInt` without a radix. A bad id answers 400. A missing collection or item is a store error. Otherwise the pair is added. |
| LibraryRoutes.RemoveItemRoute | server/src/routes/library.ts:324-332 | Both ids are read by `parseInt` without a radix. A bad collection or item id answers 400. Otherwise exactly that pair is removed. |
| LibraryRoutes.BadIdTouchesNothing | server/src/routes/library.ts:295-329 | An id that `parseInt` without a radix reads as `NaN` is rejected before any store call. |
| LibraryRoutes.CreatedNameTrimmed | server/src/routes/library.ts:288-289 | A created collection's name is trimmed and non-blank. |
| Metadata.ImgUrl | server/src/services/metadata.ts:20-22 | An image URL exists exactly when the path is non-empty. It starts with the image base and size, and ends with the path. |
| Metadata.NullIfEmpty | server/src/services/metadata.ts:46-54 | `\|\| null` on text turns exactly the empty string into nothing. |
| Metadata.ReleaseYear | server/src/services/metadata.ts:53 | A year is read only from a non-empty release date, by `parseInt` without a radix on the part before the first `-`. |
| Metadata.ReleaseYearOfIsoDate | server/src/services/metadata.ts:53 | The year of `YYYY-…` is the number before the first `-`. |
| Metadata.DurationSeconds | server/src/services/metadata.ts:56 | A duration exists exactly when the runtime is present and non-zero. It is the runtime in minutes times 60. |
| Metadata.WithJob | server/src/services/metadata.ts:327-328 | Keeps exactly the crew members with the given job. |
| Metadata.Names | server/src/services/metadata.ts:46 | The names, one per member, in order. |
| Metadata.DirectorText | server/src/services/metadata.ts:45-46 | No director is reported when nobody has the job `Director`. A reported one comes from someone who has it. |
| Metadata.GenreText | server/src/services/metadata.ts:54 | No genre is reported exactly when the genre list is missing, empty, or a single empty name. |
| Metadata.MovieResultOf | server/src/services/metadata.ts:47-58 | The title is the TMDB title, else the original title, else the query. The id is printed as text. Description and rating are passed through. |
| Metadata.TvResultOf | server/src/services/metadata.ts:183-194 | A show has no director and no duration. Its title follows the same fallbacks, and its year is read from the first air date. |
| Metadata.TopHitId | server/src/services/metadata.ts:40-42 | A search is used exactly when it has a first result whose id is present and non-zero. |
| Metadata.TryMovieSearch | server/src/services/metadata.ts:33-62 | A blank query gives nothing. Otherwise there is a result exactly when the search has a usable first hit and its details do not throw, and the result is built from those details. |
| Metadata.TryTvSearch | server/src/services/metadata.ts:172-198 | The same rule for shows. A show result has no director and no duration. |
| Metadata.BlankQueryNotSent | server/src/services/metadata.ts:38 | A blank query never reaches the client: any two clients give the same empty answer. |
| Metadata.FirstHit | server/src/services/metadata.ts:76-166 | Nothing is found exactly when every planned query fails. Otherwise the result is the earliest query that succeeds. |
| Metadata.Attempts | server/src/services/metadata.ts:76-166 | The queries sent are a prefix of the plan. Every one but the last failed, and the plan stops early only at a success. |
| Metadata.FirstHitOfAttempts | server/src/services/metadata.ts:76-166 | Stopping after the first success loses nothing: the queries sent find the same result as the whole plan. |
| Metadata.FirstHitAppend | server/src/services/metadata.ts:76-166 | Running two plans one after the other is the first plan, falling back to the second. |
| Metadata.WithAndWithoutYear | server/src/services/metadata.ts:97-98 | Each step tries its text with the year, then without. |
| Metadata.Words | server/src/services/metadata.ts:106 | `split(' ').filter(Boolean)` gives non-empty words without spaces. |
| Metadata.Paired | server/src/services/metadata.ts:107-115 | Every text is tried twice in a row, with the year and then without. |
| Metadata.TrimTexts | server/src/services/metadata.ts:106-115 | The trims are the word prefixes of length n-1 down to max(2, n-k), longest first. There are none when there are at most two words. |
| Metadata.YearStep | server/src/services/metadata.ts:76-83 | Step 1 is tried exactly when the year is truthy, with the title and that year. |
| Metadata.StripStep | server/src/services/metadata.ts:94-103 | Step 3 is tried exactly when junk stripping changes the title, and then it searches the stripped text. |
| Metadata.AlternativeStep | server/src/services/metadata.ts:120-139 | An alternative text is tried first with the year and then without, before its trims. |
| Metadata.AfterYearStep | server/src/services/metadata.ts:117-139 | Step 5 is tried exactly when there is a non-empty after-year text. |
| Metadata.FolderStep | server/src/services/metadata.ts:141-163 | Step 6 is tried exactly when there is a non-empty folder title that differs from the title. |
| Metadata.FetchMovieMetadata | server/src/services/metadata.ts:67-74 | Without a client (no API key) nothing is looked up. |
| Metadata.MovieHitFromPlan | server/src/services/metadata.ts:67-167 | A movie match is the answer to one of the planned queries. |
| Metadata.MoviePlanStart | server/src/services/metadata.ts:76-92 | The plan opens with title+year (when the year is truthy), then the title alone. |
| Metadata.YearHitWins | server/src/services/metadata.ts:77-83 | A match on step 1 is returned, and no other query is sent. |
| Metadata.MoviePlanOrder | server/src/services/metadata.ts:67-167 | The lookup tries step 1, step 2, the junk-stripped text, the word trims, the after-year text and the folder title, in that order. The first step that matches decides. |
| Metadata.Fallback | server/src/services/metadata.ts:97-98 | `??` keeps a present first result, else takes the second. |
| Metadata.TvPlan | server/src/services/metadata.ts:204-211 | Shows are searched under their title and then, only when stripping changes it, under the stripped title. |
| Metadata.FetchTvMetadata | server/src/services/metadata.ts:200-215 | Without a client nothing is looked up. A match on the plain title is returned as is. Show results have no director or duration. |
| Metadata.SuggestionOf | server/src/services/metadata.ts:236-242 | A suggestion carries the hit's id as text (`undefined` when absent), its release year and its overview. |
| Metadata.SearchMovieSuggestions | server/src/services/metadata.ts:228-246 | Without a client or with a blank query there are no suggestions. Otherwise there are at most four: the first hits of the search, in order. |
| Metadata.WithJobs | server/src/services/metadata.ts:347-348 | Keeps exactly the crew members whose job is one of a category's jobs. |
| Metadata.DedupByName | server/src/services/metadata.ts:345-353 | Keeps only members whose name has not been seen. |
| Metadata.DedupDistinct | server/src/services/metadata.ts:345-353 | No name appears twice among the people kept. |
| Metadata.DistinctCons | server/src/services/metadata.ts:349-351 | A new name in front of distinct names keeps them distinct. |
| Metadata.DedupComplete | server/src/services/metadata.ts:345-353 | Every unseen name is kept once. |
| Metadata.DedupFirst | server/src/services/metadata.ts:349-351 | Each kept person is the first crew member with that name. |
| Metadata.CrewPerson | server/src/services/metadata.ts:351 | A crew person keeps name and job and has no character. |
| Metadata.CategoryPeople | server/src/services/metadata.ts:344-354 | One person per kept crew member. |
| Metadata.CategoryPeopleSound | server/src/services/metadata.ts:344-354 | A category's people have distinct names, and each comes from a crew member with one of its jobs. |
| Metadata.CategoryPeopleComplete | server/src/services/metadata.ts:344-354 | Every crew member with one of the jobs has a person of that name in the category. |
| Metadata.GroupCrew | server/src/services/metadata.ts:343-358 | No category is listed empty, and there are no more groups than categories. |
| Metadata.GroupCrewSound | server/src/services/metadata.ts:343-358 | Every group is a category with its people. |
| Metadata.GroupCrewHas | server/src/services/metadata.ts:355-357 | A category with people is listed. |
| Metadata.GroupCrewComplete | server/src/services/metadata.ts:343-358 | Every crew member with a category's job appears in that category's group. |
| Metadata.TopCast | server/src/services/metadata.ts:360-364 | The first eight cast members, in order. A character is kept only when it is non-empty. |
| Metadata.LanguageText | server/src/services/metadata.ts:313-314 | No language is reported exactly when no spoken language has a non-empty name. |
| Metadata.CreditsOf | server/src/services/metadata.ts:327-366 | The directors are exactly the crew with job `Director`. There are at most eight cast members, the genres are passed through, and no crew category is empty. |
| Metadata.FetchCredits | server/src/services/metadata.ts:296-370 | Without a client, or when a request throws, there are no credits. The TMDB id is read by `parseInt` without a radix. Otherwise they are assembled from the movie or show lookup. |
| Metadata.WordRun | server/src/services/metadata.ts:411 | The run of word characters that opens a text, as `\b` delimits it. |
| Metadata.StripCaps | server/src/services/metadata.ts:411 | Removing the capital words never lengthens the text. |
| Metadata.JunkToTail | server/src/services/metadata.ts:411 | A capital word further along is a capital word of the tail. |
| Metadata.JunkFromTail | server/src/services/metadata.ts:411 | A capital word of the tail at a word boundary is one of the whole text. |
| Metadata.JunkShiftNonWord | server/src/services/metadata.ts:411 | A leading non-word character neither adds nor hides a capital word. |
| Metadata.JunkShiftWord | server/src/services/metadata.ts:411 | Skipping a leading word that is not junk neither adds nor hides one. |
| Metadata.JunkAtStart | server/src/services/metadata.ts:411 | A capital word at the start spans the whole leading word. |
| Metadata.StripCapsIdentity | server/src/services/metadata.ts:411 | The first replacement changes nothing exactly when the text has no word of three or more ASCII capitals between word boundaries. |
| Metadata.StripCapsNonWordStep | server/src/services/metadata.ts:411 | A leading non-word character does not decide whether the text changes. |
| Metadata.StripCapsWordStep | server/src/services/metadata.ts:411 | A leading word that is not junk does not decide whether the text changes. |
| Metadata.StripCapsDropsJunk | server/src/services/metadata.ts:411 | A leading capital word is removed, so the text changes. |
| Metadata.StripRemainingJunk | server/src/services/metadata.ts:409-414 | The result is never longer than the title and has no surrounding whitespace. |
| Metadata.JunkWordVanishes | server/src/services/metadata.ts:409-414 | A word of three or more capitals on its own is removed entirely. |
| Metadata.PlainWordKept | server/src/services/metadata.ts:409-414 | A single word that is not junk is kept as is. |
| Metadata.WordCharNotSpace | server/src/services/metadata.ts:412 | Word characters are not whitespace. |
| Metadata.WordRunAll | server/src/services/metadata.ts:411 | A text of word characters is one word run. |
| Metadata.DnaRemoved | server/src/services/metadata.ts:405-411 | "DNA" is removed. |
| Metadata.ShortCapsKept | server/src/services/metadata.ts:405-411 | "AI" is kept, being under three letters. |
| Metadata.MixedCaseKept | server/src/services/metadata.ts:405-411 | "Dna" is kept, not being all capitals. |
| Probe.ChooseVideo | server/src/services/probe.ts:50-52 | The chosen stream is a video stream, and there is none exactly when no stream is video. A chosen stream that is not cover art is the first such video stream. Cover art is chosen only when every video stream is cover art, and then it is the first video stream. |
| Probe.AudioTracks | server/src/services/probe.ts:53-62 | Every audio track comes from an audio stream, and the list is empty exactly when there is no audio stream. |
| Probe.SubtitleTracks | server/src/services/probe.ts:54-70 | Every subtitle track comes from a subtitle stream. |
| Probe.TracksAppend | server/src/services/probe.ts:53-70 | The track lists follow the streams in order: the tracks of a concatenation are the concatenation of the tracks. |
| Probe.TracksOfOne | server/src/services/probe.ts:53-70 | A single stream contributes one track to the list of its own kind and none to the other list. |
| Probe.SubtitleTrackFields | server/src/services/probe.ts:64-70 | A subtitle track keeps the stream index. It is forced exactly when the disposition's `forced` is 1. Absent tags give an absent language and title, and a missing codec reads `unknown`. |
| Probe.AudioTrackDefaults | server/src/services/probe.ts:56-62 | An audio track keeps the stream index. A missing channel count reads 2 and a missing codec reads `unknown`. |
| Probe.AudioCodecIsFirstTrack | server/src/services/probe.ts:53-75 | A reported `audioCodec` is the codec of the first audio track. With no audio track there is no `audioCodec`. |
| Probe.RoundHalfUp | server/src/services/probe.ts:78-80 | The rounded duration lies within half a second of the real one, with halves rounding up. |
| Probe.ProbeFile | server/src/services/probe.ts:45-87 | A failed ffprobe rejects. There is no video index exactly when no stream is video, and then codec, width and height are absent as well. A reported index and codec belong to one video stream. The duration is absent exactly when ffprobe's is missing or zero, and otherwise is ffprobe's rounded half up. The container is the format name. The reported video stream is the one `ChooseVideo` picks, with its width and height. The track lists are the audio and subtitle streams in order, and the audio codec is the first audio stream's. |
| Probe.ProbePrefersRealVideo | server/src/services/probe.ts:49-81 | When the file has a video stream that is not cover art, the reported video stream is also not cover art and is listed no later. A reported duration is within half a second of ffprobe's. |
| Probe.ProbeAudioAgrees | server/src/services/probe.ts:56-75 | In a probe result the audio codec is the first audio track's codec, and it is absent when there are no audio tracks. |
| Probe.FormatOfExt | server/src/services/probe.ts:119 | A recognised format is the extension without its dot. |
| Probe.FormatOfExtListed | server/src/services/probe.ts:91-107 | An extension is recognised exactly when it is one of `.srt`, `.vtt`, `.ass`, `.ssa` and `.sub`. |
| Probe.TagsOf | server/src/services/probe.ts:113-118 | The file is forced exactly when some `.`-segment is `forced`. A language is a non-empty segment without a dot. |
| Probe.Sidecar | server/src/services/probe.ts:105-120 | A record is made only for an entry that starts with the base name. Its path is the entry joined to the directory, and its format names the lower-cased extension. |
| Probe.SidecarQualifies | server/src/services/probe.ts:106-118 | An entry qualifies exactly when its lower-cased extension is a subtitle extension and it starts, case-sensitively, with the base name. Its language and forced flag are read from the text in between. |
| Probe.Sidecars | server/src/services/probe.ts:105-121 | Every record comes from a qualifying entry of the listing, and there are no more records than entries. |
| Probe.FindExternalSubtitles | server/src/services/probe.ts:93-124 | An unreadable directory yields no records. Otherwise every record comes from an entry of the video's directory that starts with the video's name without its extension. |
| Probe.SidecarsAppend | server/src/services/probe.ts:105-121 | Entries are examined one by one in listing order: the records of a concatenation are the concatenation of the records. |
| Probe.SidecarsOfOne | server/src/services/probe.ts:105-121 | A single entry contributes one record exactly when it qualifies. |
| Probe.NoLanguageIffDots | server/src/services/probe.ts:113-117 | No language is read exactly when the text between base name and extension consists only of dots. |
| Probe.SidecarShape | server/src/services/probe.ts:106-110 | Every entry `<base><mid><ext>` with a subtitle extension qualifies. |
| Probe.MiddleShape | server/src/services/probe.ts:112 | In such an entry the text read for tags is exactly `<mid>`. |
| Probe.PlainTags | server/src/services/probe.ts:113-118 | A sidecar named just `<base><ext>` has no language and is not forced. |
| Probe.LooseBaseMatch | server/src/services/probe.ts:110-112 | `Movie2.en.srt` qualifies as a sidecar of `Movie`, and its tags are read from `2.en`. |
| Probe.TwoSegmentTags | server/src/services/probe.ts:113-118 | `<a>.<b>` gives language `a`, and the file is forced when either segment is `forced`. |
| Probe.LeadingDotTags | server/src/services/probe.ts:113-118 | `.<w>` gives language `w`, so `Movie.forced.srt` has language `forced` and is forced. |
| Probe.SidecarTagExamples | server/src/services/probe.ts:109-118 | `2.en` reads language `2`, not forced; `.forced` reads language `forced`, forced. |
| Scanner.AddWalk | server/src/services/scanner.ts:59-62 | A walk completes only when both parts complete. An exception from a sub-folder ends the whole walk. |
| Scanner.ScanDirectory | server/src/services/scanner.ts:43-75 | A missing folder counts nothing. An unreadable folder makes the walk throw. |
| Scanner.VideoPaths | server/src/services/scanner.ts:56-71 | Every file the walk indexes has a video extension. |
| Scanner.Failing | server/src/services/scanner.ts:64-70 | At most every indexed file fails. |
| Scanner.FailingAppend | server/src/services/scanner.ts:56-72 | Failures add up over consecutive entries. |
| Scanner.ScanDirectoryCounts | server/src/services/scanner.ts:43-75 | A folder's walk completes exactly when every folder under it can be read. `errors` then counts the video files whose indexing fails, and `scanned + errors` is the number of video files under the folder. |
| Scanner.ScanEntriesCounts | server/src/services/scanner.ts:56-72 | The same counts hold for a folder's entries, taken in order. |
| Scanner.ScanEntryCounts | server/src/services/scanner.ts:57-71 | The same counts hold for one entry: a sub-folder is walked, and a video file counts once. |
| Scanner.ScanAllCounts | server/src/services/scanner.ts:29-34 | Over all library roots, the scan completes exactly when every root is readable. The totals then count the failing and the indexed video files of all roots. |
| Scanner.LibraryReadableCons | server/src/services/scanner.ts:30-34 | A library is readable exactly when its first root and the rest are. |
| Scanner.ScanLibrary | server/src/services/scanner.ts:19-41 | A scan requested while one is running answers zero counts and leaves the flag set. Otherwise the flag is cleared afterwards, even when the walk throws. |
| Scanner.ScanLibraryCounts | server/src/services/scanner.ts:19-41 | An idle scan finishes exactly when every root is readable, with `errors` counting failed files and `scanned + errors` counting every video file. |
| Scanner.MissingRootAddsNothing | server/src/services/scanner.ts:49-52 | A root that does not exist contributes nothing to the scan. |
| Scanner.Pad | server/src/services/scanner.ts:87 | A number below 100 is written as exactly two digits. |
| Scanner.PadValue | server/src/services/scanner.ts:87 | The two digits read back as the number. |
| Scanner.EpisodeTitle | server/src/services/scanner.ts:91-93 | An episode title begins with the show name followed by ` - S`. |
| Scanner.EpisodeRecord | server/src/services/scanner.ts:85-108 | An episode record takes the TMDB show title when there is one, else the parsed show name. Its sort title is made from that name. It keeps path and size and has no director. Without metadata it has no year, TMDB id or poster. |
| Scanner.FolderCandidate | server/src/services/scanner.ts:122-124 | The folder title is a candidate exactly when its JavaScript length exceeds three UTF-16 code units and it differs from the file title. |
| Scanner.DisplayTitle | server/src/services/scanner.ts:129 | The displayed title is never empty. It is the TMDB title when that is non-empty, else the parsed title, else `Unknown`. |
| Scanner.MovieRecord | server/src/services/scanner.ts:129-147 | A movie record carries the display title and a sort title made from it. The metadata's year is preferred over the parsed one. Without metadata there is no director, TMDB id or genre. |
| Scanner.MovieLookupOf | server/src/services/scanner.ts:110-126 | The lookup uses the file's year when it has one, else the folder's, and the year is plausible. A folder candidate differs from the file title and is longer than three characters. |
| Scanner.IndexVideoFile | server/src/services/scanner.ts:77-149 | Nothing is stored exactly when an episode-looking name fails to parse. Otherwise the record keeps path and size, and it is an episode exactly when the name looks like one. |
| Scanner.OfflineMovie | server/src/services/scanner.ts:110-147 | Without a metadata client, a movie is stored under its parsed title (`Unknown` when empty) and the chosen year, with no director. |
| Scanner.OfflineEpisode | server/src/services/scanner.ts:80-108 | Without a metadata client, an episode is titled from the parsed show name, season and episode, and has no year. |
| Scanner.GetLibraryPaths | server/src/services/scanner.ts:151-159 | A missing or empty setting gives no paths, and so does text that does not parse. Otherwise the result is the parsed list. |

## Left out

- Logging, the `setInterval` and `setTimeout` scheduling itself, and process and file-system errors are not modelled. Timer callbacks are explicit events.
- `stripJunkTokens` (a table of release-tag regular expressions) is a parameter of the movie parser.
- `Math.min`/`Math.max` on numbers beyond 2^53, where `parseInt` loses precision, are not modelled.
- `NaN` is modelled as `None`. Numbers in the `Json` type are integers.
- LibraryRoutes.EditItem: body values are `null`, numbers and strings. JSON booleans, arrays and objects are not modelled; the SQLite driver refuses to bind them, which would be a 500.
- ServerHooks.BootScan: the stored path list is decoded as a list of strings or a parse failure. A stored `null` (a `TypeError` on `.length`), a number, an object or a bare string is not modelled.
- Scanner.GetLibraryPaths: the stored path list is decoded as a list of strings or a parse failure. Other JSON shapes are not modelled.
- SettingsRoutes.ViewSettings: the stored path list is decoded as a list of strings or a parse failure. Other JSON shapes are not modelled.
- The metadata service's HTTP answers, `readdir`, `stat` and `execFile` are oracles: their results are inputs.
- `bcrypt` hashing and comparison and JWT signing are parameters. The login model takes the comparison as a given function.
- `crypto.randomBytes`, UUIDs and `localStorage` reads and writes are parameters.
- SQLite type affinity and the order of rows that tie under `ORDER BY` are not modelled. Ties keep listing order.
- The directory listing order is a parameter. `localeCompare` is modelled as code-point order.
- Case folding covers ASCII letters only.
- The `requireAuth` and `requireAdmin` middleware, the invite-code admin routes, and `PORT` parsing are not modelled.
- `focusFirst` and `querySelector` are modelled as a `FocusFirst` action. Scrolling into view is not modelled.
- ColorUtils.RgbToHex: integer components only. `Math.round` of fractional components is not modelled.
- The luminance, contrast and HSL colour helpers work in floating point and are not modelled. Neither are `applyToDOM`, `fontPreviewFamily` or the display-setting setters, which only write one field.
- SettingsRoutes.PickFolder: the desktop shell's dialog answer is taken as given.
- SettingsPage.PickFolderReply: a transport error without a server message is not modelled. The `picking` and `saving` signals are not modelled either.
- Ids in URLs, TMDB ids and release years are read by `parseInt` without a radix: a `0x`/`0X` prefix means hexadecimal, and anything else is read in decimal. The other radix-less prefixes of old engines (a leading `0` as octal) are not modelled, as current engines do not use them.
- SpatialNavigation.Score: distances and scores are exact real numbers. The rounding of JavaScript's doubles is not modelled, so near-ties that rounding would break or create are outside the model.
- SpatialNavigation.TranslationInvariant: the invariance holds over exact numbers. With doubles, subtracting a large scroll offset can round, so it is not promised there.
- `fetchMovieMetadataByTmdbId` is a single details lookup and is not modelled. `fetchSeasonPoster` ranks posters with floating-point `log1p` scores and is not modelled.
- `loadFilterCollections` (with its migration of old categories), `loadOverrides` and `loadCollections` read storage or HTTP with unchecked casts and are not modelled. Their results are the service's inputs.
- The read queries `getAllMediaItems(ForUser)`, `getMediaItemById(ForUser)`, `getRecentlyAdded` and `getAllManualCollections` are modelled as listings of the store. `deleteMediaItemByPath` and `getAllMediaFilePaths` are not called by the modelled code.
- These library routes are not modelled: `recent`, `continue`, item by id, `scan`, `progress`, and the favourite and watchlist wrappers. They pass their arguments straight to the modelled queries. The search-suggestion, apply-suggestion, credits and season-poster routes are not modelled either: they call the modelled metadata functions and return the results.
- LibraryRoutes.RootOf: `path.sep` is taken as `/`. Windows separators are not modelled.

## Findings

| source | as written | input that shows it | evidently intended | confidence | as-written member | corrected member |
|---|---|---|---|---|---|---|
| server/src/services/transcoder.ts:93-99 | The error callback deletes by item id without checking which session is registered. | Kill a session, create a new one for the same item, then the killed encoder reports its error. | Only the failed session's own entry is removed. | medium, not executed | Transcoder.StaleErrorEvictsNewerSession | Transcoder.StaleErrorKeepsNewerSession |
| server/src/utils/fileUtils.ts:220-226 | Containment tests `resolved.startsWith(root + sep)`. | Library root `/`, file `/movies/a.mkv`: the required prefix is `//`. | A root that already ends with the separator is used as is. | high, not executed | FileUtils.RootLibraryContainsNothing | FileUtils.WithinRootFixedAgrees |
| src/app/pages/settings/settings.component.ts:184-187 | The page shows the masked key from `GET /settings` (line 91) and always sends the shown key back on save. The server stores any non-empty key it receives (server/src/routes/settings.ts:98-101,109-112). | Load the page with a key stored, change nothing, and press Save: the stored key becomes eight bullets. | The key is sent only when it was edited. | medium, not executed | SettingsPage.UntouchedSaveStoresMask | SettingsPage.UntouchedSaveKeepsKey |
