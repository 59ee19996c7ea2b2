# Pangrum in Dafny

Pangrum is a daily word puzzle. The player gets seven letters and finds words
that use them, and each word must contain the centre letter. Words found on
one device are synchronised to the player's other devices through a shared
"sync room". This project models the core of that system as pure Dafny
functions and proves properties of the model.

- **Puzzle words** (`PuzzleWords`): the `/api/words` endpoint. It picks the
  letters, filters the word list, masks the words, hashes them and counts the
  pangrams.
- **Dictionary expansion** (`Hunspell`, `Unmunch`): the build-time expansion
  of a Hunspell dictionary. It parses the affix file, the flag notations and
  the dictionary file, then expands each stem with its prefixes, suffixes,
  secondary suffixes and cross products.
- **Sync keys** (`SyncKeys`, `LocalStore`, `Protocol`): the helpers shared by
  client and server. These are normalising a room id, recognising a dated
  puzzle key, merging word sets, and the local-storage layout of found words.
- **Sync server** (`SyncRoom`): one room of the sync server. It handles
  connections and presence, the full-state merge (`sync-all`), single-word
  relays and the "last active puzzle" pointer.
- **Sync client** (`SyncSession`, `SyncCode`, `SyncUI`): the client side of
  the same protocol. This covers connecting and disconnecting, merging what
  the server sends into local storage, toasts and the one-time navigation,
  plus the sync code and the labels of the sync button.
- **Popularity** (`Popularity`, `PopularityRoom`, `PopularityQueue`): per-word
  counters of the players who found a word. This covers the percentage, the
  counting room with its one-time seeding, and the offline queue of
  submissions.
- **Game bookkeeping** (`Score`, `Share`, `PuzzleHistory`, `CachedDates`,
  `Dates`, `DateFormat`, `Language`, `Toasts`, `Tutorial`, `WordHint`):
  - scores and levels, the progress bar and the share text;
  - streaks and the history read from local storage;
  - the offline date fallback, date validation and the language choice;
  - toasts, the tutorial and word hints.

Shared vocabulary lives in `Seqs`, `Strings`, `StringSort`, `OrderedMap` and
`Numeric`. A JavaScript `Set` is a duplicate-free sequence kept in insertion
order (`[...new Set(s)]` is `Seqs.Dedup`). A JavaScript object or storage
listing is an `OrderedMap.OMap`, which is a key sequence plus a map.

Two behaviours of the code are worth noting:

- The server derives a puzzle's language from its key by taking the text
  before the first `-`. A regional key such as `en-gb-2024-01-14` therefore
  yields `en` (`SyncRoom.RegionalKeyLosesRegion`).
- The client's own `getAllLocalPuzzles` only checks the `pangrum-` prefix and
  the "incorrect" marker. It does not check the dated-key pattern, so any
  other non-empty array stored under the prefix is also sent
  (`LocalStore.CollectsUndatedKeys`).

## Model

| member | source | states |
|---|---|---|
| SyncKeys.NormalizeRoomId | app/utils/sync.ts:12-14 | the room id starts and ends with no whitespace and holds no upper-case letter |
| SyncKeys.NormalizeRoomIdSpec | app/composables/useSync.ts:34-36 | lower-casing before trimming equals trimming before lower-casing, so the client copy and the shared copy agree; normalising twice changes nothing |
| SyncKeys.MatchesDateKeyGrammar | app/utils/sync.ts:6 | a text matches the dated-key pattern exactly when it splits into a language code (two lower-case letters, optionally `-` and two more), a `-`, and a `YYYY-MM-DD` date |
| SyncKeys.DerivedKeyMatches | app/utils/sync.ts:4-6 | every key built from a language code and a date matches the pattern |
| SyncKeys.IsValidPuzzleKey | app/utils/sync.ts:20-26 | an accepted storage key has the `pangrum-` prefix, does not contain `-incorrect-`, and its remainder matches the dated-key pattern |
| SyncKeys.IsValidPuzzleKeyIff | app/utils/sync.ts:20-26 | both directions: a key is accepted iff it has the prefix, lacks the marker, and is the prefix followed by some language code, `-` and date |
| SyncKeys.MergeWordSets | app/utils/sync.ts:32-44 | the merged list has no repeats and holds exactly the words of both inputs |
| SyncKeys.MergeAddedCount | app/utils/sync.ts:34-40 | `added` is the number of distinct remote words missing locally, and the merged length is the local distinct count plus `added` |
| SyncKeys.MergeIsDedupOfConcat | app/utils/sync.ts:32-44 | the merge equals removing repeats from local followed by remote |
| SyncKeys.MergeKeepsLocalOrder | app/utils/sync.ts:33 | the merged list begins with the local words, deduplicated, in their order |
| SyncKeys.MergeIdempotent | app/utils/sync.ts:32-44 | merging a list with itself, or with nothing, adds nothing |
| SyncKeys.MergeAssociative | app/utils/sync.ts:32-44 | merging `b` then `c` gives the same list as merging `b + c` at once |
| SyncKeys.MergeAddedAdditive | app/utils/sync.ts:34-40 | the counts added by two successive merges sum to the count added by the combined merge |
| Protocol.WordsOf | party/index.ts:125 | a puzzle's words are its entry, or the empty list when it has none |
| LocalStore.StorageKey | app/composables/useSync.ts:67 | the storage key is `pangrum-` followed by the puzzle key, and removing the prefix gives the puzzle key back |
| LocalStore.GetPuzzleFromLocal | app/composables/useSync.ts:71-86 | reading gives the stored array, and `[]` when the key is missing or does not hold an array |
| LocalStore.SavePuzzleToLocal | app/composables/useSync.ts:66-69 | saving writes exactly one storage entry, an array, under the puzzle's key |
| LocalStore.SaveThenGet | app/composables/useSync.ts:66-86 | reading back a saved puzzle gives the saved words, and every other puzzle reads as before |
| LocalStore.GetAllLocalPuzzlesSpec | app/composables/useSync.ts:38-64 | a puzzle is collected iff its prefixed key is stored, lacks the marker, and holds a non-empty array, which is then what is collected |
| LocalStore.CollectsUndatedKeys | app/composables/useSync.ts:46 | a key the shared eligibility check rejects is collected all the same |
| SyncRoom.StatusMessage | party/index.ts:98-106 | the presence message reports the number of connections and the room's has-ever-synced flag; how those evolve is stated by `SyncRoom.OnConnect` and `SyncRoom.HandleOnlyGrows` |
| SyncRoom.OnConnect | party/index.ts:48-69 | a connection joins the room; the room becomes synced iff it already was, or it now has two or more connections and stored puzzles; the status goes to everyone and then to the newcomer |
| SyncRoom.OnClose | party/index.ts:71-73 | a connection leaves and the new count is broadcast; puzzles, pointer and synced flag are unchanged |
| SyncRoom.Merged | party/index.ts:129 | a puzzle's merged words have no repeats and are the union of the stored and the client's words |
| SyncRoom.AllKeys | party/index.ts:118-121 | the keys visited are the client's keys and the stored keys, each once |
| SyncRoom.StoredRef | party/index.ts:218-222 | the pointer sent back is the stored pointer without its timestamp, and absent when none is stored |
| SyncRoom.PuzzleBroadcasts | party/index.ts:157-168 | one `sync-puzzle` per updated puzzle, in order, carrying its words, sent to everyone but the sender |
| SyncRoom.HandleSyncAll | party/index.ts:108-169 | connections and synced flag are kept; the pointer becomes the client's current puzzle if given; the first output is the reply to the sender carrying the pointer read before the update; every later output is a `sync-puzzle` broadcast excluding the sender |
| SyncRoom.MergeOneAt | party/index.ts:124-142 | one merge step stores and reports a key only when the merge grows it, replies with it when non-empty, and leaves every other key alone |
| SyncRoom.MergeKeysAt | party/index.ts:124-142 | after the loop over distinct keys, each key's stored, replied and updated entries are as one step would set them from the initial state |
| SyncRoom.MergeNoGrowth | party/index.ts:129-132 | the merge keeps the stored words as a prefix, and equals them when nothing grows |
| SyncRoom.SyncAllAt | party/index.ts:124-154 | after `sync-all`, each puzzle is stored, and replied, as the union of stored and client words when that is non-empty |
| SyncRoom.SyncAllKeepsInv | party/index.ts:132-136 | stored word lists stay free of repeats |
| SyncRoom.SyncAllReplyIsState | party/index.ts:139-141 | the reply holds exactly the room's new puzzle state |
| SyncRoom.SyncAllStoresUnion | party/index.ts:129-134 | the stored words become the union of both sides and keep the old words as a prefix |
| SyncRoom.SyncAllUpdatedAt | party/index.ts:132-136 | a puzzle is reported as updated iff its stored list grew, and then with its new words |
| SyncRoom.SyncAllRelaysGrowth | party/index.ts:157-168 | the relayed puzzles are exactly the ones that grew, each with its new stored words |
| SyncRoom.LangOfKey | party/index.ts:183 | the derived language is non-empty and has no `-`, and it is `en` when nothing comes before the first `-` |
| SyncRoom.LangOfKeyFallback | party/index.ts:183 | the empty key and any key starting with `-` get the `en` fallback |
| SyncRoom.HandleNewWord | party/index.ts:171-197 | a known word changes nothing and sends nothing; a new word is appended, relayed to everyone but the sender, and moves the pointer when a date is given |
| SyncRoom.NewWordIdempotent | party/index.ts:177 | delivering the same word twice has no second effect |
| SyncRoom.LangOfKeyIsFirstSegment | party/index.ts:183 | the language derived from `lang-rest` is `lang` when `lang` has no `-` |
| SyncRoom.RegionalKeyLosesRegion | party/index.ts:183 | `en-gb-2024-01-14` yields the language `en` |
| SyncRoom.OnMessage | party/index.ts:75-92 | an unreadable or unknown frame changes nothing and sends nothing |
| SyncRoom.MessageNeverEchoed | party/index.ts:150-195 | a client message is answered only to its sender and with a `sync-all` reply; every broadcast it causes excludes the sender |
| SyncRoom.HandleOnlyGrows | party/index.ts:48-197 | no event removes a word from a stored puzzle (the old list stays a prefix), and once synced a room stays synced |
| SyncRoom.HandlePreservesInv | party/index.ts:48-197 | every event keeps stored word lists free of repeats |
| SyncRoom.NewRoom | party/index.ts:231-233 | an empty room satisfies the room invariant |
| SyncSession.MergePuzzleWords | app/composables/useSync.ts:258-282 | `added` counts the distinct remote words missing locally; nothing changes when it is zero; otherwise the merged set is saved, and the current puzzle's words gain the remote words |
| SyncSession.MergeNeverRemoves | app/composables/useSync.ts:258-282 | a merge never loses a stored word; other puzzles are untouched and the merged puzzle becomes the union |
| SyncSession.MergeAddsIffNews | app/composables/useSync.ts:263-270 | words are added iff some remote word is missing locally |
| SyncSession.MergeEachStore | app/composables/useSync.ts:216-219 | after merging every puzzle of a reply, each named puzzle holds the union and every other puzzle is unchanged |
| SyncSession.MergeEachAdded | app/composables/useSync.ts:214-219 | the running total is positive iff some puzzle brought a new word |
| SyncSession.OnSyncAllReply | app/composables/useSync.ts:213-233 | after a `sync-all` reply the initial sync is complete and the only effects are toasts and navigations |
| SyncSession.SyncAllToastIff | app/composables/useSync.ts:221-226 | a toast is shown iff some puzzle in the reply brought a new word |
| SyncSession.SyncAllNavigationIff | app/composables/useSync.ts:229-231 | navigation happens iff this is the first reply and the pointer has a non-empty date and language |
| SyncSession.SyncAllStoresUnion | app/composables/useSync.ts:216-219 | each puzzle of the reply is stored as the union of local and remote words |
| SyncSession.NavigatesOnlyOnce | app/composables/useSync.ts:211-232 | a second `sync-all` reply never navigates |
| SyncSession.OnSyncPuzzle | app/composables/useSync.ts:235-244 | a `sync-puzzle` merges its words and shows only success toasts |
| SyncSession.SyncPuzzleToastIff | app/composables/useSync.ts:238-243 | at most one toast, shown iff the words bring something new |
| SyncSession.OnRemoteWord | app/composables/useSync.ts:246-256 | a relayed word is merged, and the only possible toast is "+1 word synced" |
| SyncSession.RemoteWordToastIff | app/composables/useSync.ts:249-255 | the toast shows iff the word is new and belongs to the puzzle on screen |
| SyncSession.OnMessage | app/composables/useSync.ts:183-208 | an unreadable frame is ignored; a status message sets the device count and synced flag and nothing else |
| SyncSession.Connect | app/composables/useSync.ts:134-147 | without an enabled code, or with a socket already open, nothing happens; otherwise a socket opens to the normalised room and the state resets to connecting |
| SyncSession.Disconnect | app/composables/useSync.ts:172-181 | the socket is dropped (closed if present) and all presence state resets, while stored words are kept |
| SyncSession.SendSyncAll | app/composables/useSync.ts:284-301 | nothing is sent unless the socket is open; otherwise one `sync-all` carries all local puzzles and names the current puzzle iff there is one |
| SyncSession.SendWord | app/composables/useSync.ts:303-313 | nothing is sent unless the socket is open; otherwise one `word` message with the current key and date |
| SyncSession.OnOpen | app/composables/useSync.ts:149-154 | opening marks the session connected and sends a `sync-all` |
| SyncSession.OnClose | app/composables/useSync.ts:160-163 | closing marks it disconnected with no devices and sends nothing |
| SyncSession.OnError | app/composables/useSync.ts:165-169 | an error records "Connection error" and clears the connected and connecting flags |
| SyncSession.OnWatch | app/composables/useSync.ts:316-327 | enabled and online connects; anything else disconnects; `SyncSession.HandleSafe` shows that this event, like every other, keeps the session invariant and loses no word |
| SyncSession.MessageSafe | app/composables/useSync.ts:183-208 | an incoming message keeps the session invariant, never loses a stored word and never transmits |
| SyncSession.HandleSafe | app/composables/useSync.ts:134-327 | every client event keeps the invariant, never loses a stored word, and transmits only through an open socket |
| SyncCode.GenerateCode | app/composables/useSyncCode.ts:12-20 | a generated code has six characters, each drawn from the 31-letter alphabet by its random draw |
| SyncCode.GenerateCodeOnto | app/composables/useSyncCode.ts:12-20 | every six-letter word over the alphabet can be generated |
| SyncCode.Enable | app/composables/useSyncCode.ts:22-24 | after enabling, sync is enabled |
| SyncCode.EnableChoice | app/composables/useSyncCode.ts:23 | a given code that is not blank is stored lower-cased and trimmed; otherwise a fresh code is generated |
| SyncCode.Disable | app/composables/useSyncCode.ts:26-29 | disabling clears the code and the has-synced marker |
| SyncUI.WaitingAndSyncedExclusive | app/composables/useSyncUI.ts:41-43 | "waiting" and "synced" never hold together, and while connected exactly one of them holds |
| SyncUI.OtherDevices | app/composables/useSyncUI.ts:45 | the count of other devices is the connection count less one, never below zero |
| SyncUI.StatusText | app/composables/useSyncUI.ts:47-52 | "Synced" alone, or "N other device(s) connected" with the plural for more than one; `SyncUI.StatusTextCount` proves that the count reads back from the text |
| SyncUI.StatusTextCount | app/composables/useSyncUI.ts:47-52 | the status text begins with the decimal count, which reads back as the count; the singular form appears iff the count is one |
| SyncUI.ButtonLabel | app/composables/useSyncUI.ts:54-58 | the label is "Sync" iff sync is off, and "Waiting..." iff enabled and waiting |
| SyncUI.ButtonIcon | app/composables/useSyncUI.ts:60-64 | each label has its own icon |
| SyncUI.HandleEnable | app/composables/useSyncUI.ts:15-22 | enabling from the dialog always leaves sync enabled |
| SyncUI.HandleEnableChoice | app/composables/useSyncUI.ts:15-22 | the typed code is used iff the input is shown and not blank; otherwise a code is generated |
| SyncUI.HandleJoinEnableChoice | app/composables/useSyncUI.ts:24-28 | joining with a blank input changes nothing; otherwise the typed code is stored normalised |
| PuzzleWords.PuzzleLetters | server/api/words.get.ts:10-11 | the query's distinct upper-cased letters are used iff there are exactly seven; otherwise the fallback puzzle |
| PuzzleWords.QueryLetters | server/api/words.get.ts:10-11 | letters from the query are distinct, are exactly the query's upper-cased letters, and contain no lower-case letter |
| PuzzleWords.ValidWords | server/api/words.get.ts:13-16 | a word is kept iff it contains the centre letter (the third) and uses only puzzle letters; the kept words are in list order |
| PuzzleWords.MaskSpec | server/api/words.get.ts:19 | the mask keeps length and the first two characters and blanks the rest; two masks of words of length two or more are equal iff the lengths and first two letters agree |
| PuzzleWords.WordsForSpec | server/api/words.get.ts:18-23 | the masked words are sorted and are exactly the masks of the valid words; there is one hash per valid word, in order; the pangram count counts the valid words using all seven letters |
| Score.ThresholdsIncrease | app/utils/score.ts:18-29 | the level thresholds strictly increase |
| Score.ScoreWordSpec | app/utils/score.ts:63-65 | four letters score 1; other words score their length, plus 7 for a word using seven distinct letters (which then has at least seven letters) |
| Score.SumScoresRemove | app/utils/score.ts:52-53 | a total score is the score of any one word plus the total of the rest |
| Score.SumScoresSubset | app/utils/score.ts:52-53 | distinct found words drawn from the valid words never score more than the maximum |
| Score.CalculatePercentage | app/utils/score.ts:33-40 | 0 without a maximum, 100 for a perfect score, at most 99 otherwise |
| Score.PercentageBelowPerfect | app/utils/score.ts:38-39 | below perfect, the percentage is the rounded share capped at 99 |
| Score.PlayerPercentageBounds | app/utils/score.ts:51-55 | a player's percentage lies in 0..100, and finding every valid word gives 100 |
| Score.FindLevel | app/utils/score.ts:42-49 | the scan from the top finds the highest level whose threshold is reached, or the first level |
| Score.GetLevelSpec | app/utils/score.ts:42-49 | the level's threshold is reached and no higher threshold is; a negative percentage is "beginner"; "perfect" iff at least 100 |
| Score.GetLevelMonotone | app/utils/score.ts:42-49 | a higher percentage never gives a lower level |
| Share.CalculateFillWidth | app/utils/share.ts:15-38 | the bar is full at the last level, and otherwise lies between the dots of the current and next level |
| Share.FillWidthBounds | app/utils/share.ts:15-38 | the width lies in 0..100, is 100 from 100% on and 0 at or below 0% |
| Share.FillWidthAtThreshold | app/utils/share.ts:33-37 | at a level's threshold the bar stops exactly at that level's dot, `100 * i / 9` |
| Share.FillWidthMonotone | app/utils/share.ts:15-38 | a higher percentage never gives a shorter bar |
| Share.ShareTextLines | app/utils/share.ts:40-46 | the share text has exactly five lines: title with date, score with status, counts, a blank line, the site |
| Share.PangramPartIff | app/utils/share.ts:41-43 | the pangram count is left off iff the puzzle has no pangrams |
| Popularity.GetWordCount | app/utils/popularity.ts:11-13 | a missing hash counts 0, otherwise its stored count |
| Popularity.CalculateWordPercentage | app/utils/popularity.ts:1-9 | no percentage iff there are no players |
| Popularity.PercentageIsQuotient | app/utils/popularity.ts:7-8 | the rounded percentage equals the integer quotient `(200c + t) / 2t` |
| Popularity.PercentageBounds | app/utils/popularity.ts:1-9 | a count between 0 and the number of players gives 0..100, with 0 and 100 at the ends |
| Popularity.PercentageMonotone | app/utils/popularity.ts:1-9 | more finders never gives a smaller percentage |
| PopularityRoom.CountKey | party/popularity.ts:139 | a count key is `count:` followed by the hash and never clashes with `players` |
| PopularityRoom.SubmissionEffect | party/popularity.ts:137-162 | a submission adds one to the word's count, adds one player iff it is the player's first word, leaves every other entry alone, and broadcasts the new figures |
| PopularityRoom.HandleWordSubmission | party/popularity.ts:137-162 | the room id and the seeded flag are unchanged |
| PopularityRoom.SnapshotSpec | party/popularity.ts:45-56 | the `init` snapshot reports each hash's stored count and the stored number of players (0 if none) |
| PopularityRoom.ParseRoomId | party/popularity.ts:112-116 | a room id parses iff it is a language code, `-` and a date, and then splits into exactly those |
| PopularityRoom.PutCountsAt | party/popularity.ts:125-129 | seeding writes `count:h` for each fetched hash and leaves other entries alone |
| PopularityRoom.MaybeSeed | party/popularity.ts:103-135 | afterwards the room is marked seeded; the counts are fetched iff it was not seeded, had no players and its id is a dated key, and then for the parsed language and date |
| PopularityRoom.SeedsAtMostOnce | party/popularity.ts:104-107 | a second seeding attempt does nothing and fetches nothing |
| PopularityRoom.SeedGating | party/popularity.ts:103-130 | storage changes only when every gate passes and the fetch reported players |
| PopularityRoom.SeedContents | party/popularity.ts:124-129 | a successful seed stores the player count and every fetched count, keeping other counts |
| PopularityRoom.OnConnect | party/popularity.ts:42-63 | a connection triggers the seeding and is sent a snapshot of the resulting storage |
| PopularityRoom.OnMessage | party/popularity.ts:65-77 | an unreadable frame is ignored and a submission is counted |
| PopularityRoom.RequestStatus | party/popularity.ts:82-98 | non-POST gives 405, a bad body 400, and 200 exactly for a POST with a submission, which is then counted |
| PopularityQueue.GetQueue | app/composables/usePopularityQueue.ts:13-21 | the stored list, or empty when nothing readable is stored; `PopularityQueue.ProcessSpec` states what processing does with that list |
| PopularityQueue.QueueSubmission | app/composables/usePopularityQueue.ts:28-38 | queuing appends exactly one submission stamped with the current time and keeps the rest |
| PopularityQueue.ProcessQueue | app/composables/usePopularityQueue.ts:40-69 | an empty queue writes nothing; otherwise the saved queue is a subsequence of the old one holding no expired item |
| PopularityQueue.ProcessSpec | app/composables/usePopularityQueue.ts:49-66 | the posts are exactly the unexpired items in order, and the saved queue is exactly the unexpired items whose post failed |
| PopularityQueue.ProcessAccounts | app/composables/usePopularityQueue.ts:49-66 | every item is either posted once or expired, and no more items are kept than were posted |
| PuzzleHistory.RunLengthSpec | app/composables/usePuzzleHistory.ts:28-46 | the run ending on a day is a run of played days, the day before it was not played, and no longer run ends there |
| PuzzleHistory.CalculateCurrentStreak | app/composables/usePuzzleHistory.ts:22-49 | the streak is the run ending today if today was played, else the run ending yesterday; it is 0 iff neither day was played |
| PuzzleHistory.SortDays | app/composables/usePuzzleHistory.ts:57 | sorting gives the same days in strictly increasing order |
| PuzzleHistory.CalculateLongestStreak | app/composables/usePuzzleHistory.ts:54-85 | the longest streak is at least every run ending on a played day and equals one of them (0 when nothing was played) |
| PuzzleHistory.LongestRun | app/composables/usePuzzleHistory.ts:63-82 | the scan over sorted days finds the maximum run length |
| PuzzleHistory.CalculateStats | app/composables/usePuzzleHistory.ts:87-93 | the current streak is the run ending today (or yesterday when today is not played) and the longest is the longest run ending on a played day, as the two streak calculations give them; the days played are counted once each, the current streak never exceeds the longest, and the longest lies between 1 and the days played |
| PuzzleHistory.LoadHistorySpec | app/composables/usePuzzleHistory.ts:105-138 | a date appears in the history iff `pangrum-<lang>-<date>` is stored with a date-shaped suffix and a non-empty array, recorded with its word count |
| CachedDates.LoadCachedDates | app/composables/useCachedDates.ts:20-55 | loading always marks the cache loaded, and a failed cache read leaves no dates |
| CachedDates.GetCachedDates | app/composables/useCachedDates.ts:70-72 | a language with no entry has no cached dates |
| CachedDates.LoadedCache | app/composables/useCachedDates.ts:29-46 | after loading, a date is cached for a language iff some cached path names that language and date; the dates have no repeats |
| CachedDates.AvailableAfterLoad | app/composables/useCachedDates.ts:61-64 | a date is available iff online or some cached path names it |
| CachedDates.GetClosestAvailableDate | app/composables/useCachedDates.ts:74-79 | online, cached or with no data the target is kept; otherwise the result is a cached date at minimal distance from the target |
| Dates.ParseWordsPath | app/utils/dates.ts:1-10 | a parsed path is `/api/words/<lang>/<date>`, with a non-empty language without `/` and a `YYYY-MM-DD` date |
| Dates.ParseWordsPathComplete | app/utils/dates.ts:1-10 | every such path parses back to its language and date |
| Dates.GetClosestDate | app/utils/dates.ts:12-29 | no dates or a cached target gives the target; otherwise a cached date at minimal distance, and the first such in iteration order |
| DateFormat.DaysInMonth | app/composables/useDate.ts:5-8 | months have 28 to 31 days, and 29 exactly for February of a leap year |
| DateFormat.ParseIsoDate | app/composables/useDate.ts:3-7 | a date-shaped text fails to parse iff its month is outside 1..12 or its day outside 1..31 |
| DateFormat.IsoDateOfFields | app/composables/useDate.ts:8 | printing the fields read from a date-shaped text gives the text back |
| DateFormat.FieldsOfIsoDate | app/composables/useDate.ts:8 | reading the fields of a printed date gives the fields back |
| DateFormat.IsValidDateIff | app/composables/useDate.ts:1-9 | a query value is a valid date iff it is text, date-shaped, and names a real calendar day |
| DateFormat.LocalDateStringRoundTrip | shared/utils.ts:6-11 | a four-digit year's local date string is date-shaped, reads back as the same year, month and day, and is a valid date when the day exists |
| DateFormat.ShortYearNotDateShape | shared/utils.ts:7-10 | a year below 1000 gives a string that is not date-shaped |
| DateFormat.InitialDate | app/composables/useDate.ts:14 | the query's date if valid, otherwise today; a valid today makes the result valid |
| Language.IsLanguageCases | app/composables/useLanguage.ts:1-14 | each supported code is accepted, and so is an inherited name such as `toString`; `EN`, `english` and non-text values are not |
| Language.IsLanguageIff | app/composables/useLanguage.ts:12-14 | a text is accepted iff it is a supported code or an inherited object property name |
| Language.DefaultLanguage | app/composables/useLanguage.ts:19 | the query's language if accepted, otherwise `en`; the result is always accepted |
| Toasts.GetToastDuration | app/utils/toast.ts:16-18 | a toast without a type lasts as long as an info toast, otherwise its type's default |
| Toasts.DurationTable | app/utils/toast.ts:9-14 | celebration 2000 ms, error 1500 ms, success and info 1000 ms; celebration is the longest |
| Toasts.TimerDelay | app/utils/toast.ts:22 | an explicit duration wins over the type's default; `Toasts.AddThenExpire` proves that the timer set with this delay removes exactly the added toast |
| Toasts.AddToast | app/utils/toast.ts:20-32 | showing a toast appends exactly it and arms its timer with its delay |
| Toasts.Find | app/utils/toast.ts:27 | the index found is the first toast with that identity, or the end |
| Toasts.Expire | app/utils/toast.ts:26-31 | expiry never adds toasts |
| Toasts.BoardStaysValid | app/utils/toast.ts:20-32 | identities on the board stay unique through adding and expiring |
| Toasts.ExpireAbsent | app/utils/toast.ts:28-30 | expiring a toast no longer shown changes nothing |
| Toasts.ExpireRemovesOnlyThat | app/utils/toast.ts:26-31 | expiry removes exactly the expiring toast and keeps every other |
| Toasts.AddThenExpire | app/utils/toast.ts:20-32 | a toast's own timer restores the board as it was before the toast |
| Tutorial.StartTutorial | app/composables/useTutorial.ts:34-37 | starting shows the first step |
| Tutorial.CompleteTutorial | app/composables/useTutorial.ts:54-57 | completing hides the tutorial and records it as seen |
| Tutorial.SkipTutorial | app/composables/useTutorial.ts:59-62 | skipping has the same effect as completing |
| Tutorial.NextStep | app/composables/useTutorial.ts:39-46 | before the last step it advances one; on the last it completes the tutorial |
| Tutorial.PreviousStep | app/composables/useTutorial.ts:48-52 | after the first step it goes back one; on the first it changes nothing |
| Tutorial.CheckFirstVisit | app/composables/useTutorial.ts:65-69 | a visitor who has seen it is left alone; any other sees the first step |
| Tutorial.CurrentStepId | app/composables/useTutorial.ts:74 | a step in range has its id; otherwise there is none |
| Tutorial.RunValid | app/composables/useTutorial.ts:34-69 | any sequence of actions keeps the step in range, and "seen" is never forgotten |
| Tutorial.WalkThrough | app/composables/useTutorial.ts:39-46 | from the start, n "next" presses reach step n, first and last steps are recognised, and one more press ends the tutorial |
| WordHint.HintParts | app/utils/word.ts:9-12 | the hint is the upper-cased first letter, " (", the word's length in decimal, and ")" |
| WordHint.HintHidesRest | app/utils/word.ts:9-12 | words of the same length and first letter have the same hint |
| WordHint.EmptyHint | app/utils/word.ts:9-12 | the empty word's hint is " (0)" |
| Hunspell.ParseFlagsSpec | modules/utils/unmunch.ts:107-126 | "" and "0" give no flags; long flags are chunks of one or two characters that concatenate to the text; numeric flags are comma-free and rejoin to the text; short or UTF-8 flags are the single characters |
| Hunspell.PairsSpec | modules/utils/unmunch.ts:110-116 | long flags cut the text into pairs from the start, the last possibly single |
| Hunspell.ParseDictionaryLineSpec | modules/utils/unmunch.ts:136-144 | a line gives an entry iff it is not blank and does not start with `/` after trimming; the stem is the trimmed text before the first `/`, and the flags come from the text between the first and second `/` |
| Hunspell.InParseWordLines | modules/utils/unmunch.ts:135-145 | the entries are exactly what the individual lines parse to |
| Hunspell.ParseDictionaryFileSpec | modules/utils/unmunch.ts:128-148 | the first line (the word count) is skipped, and blank lines give no entry |
| Hunspell.Fields | modules/utils/unmunch.ts:42-45 | a line that is neither blank nor a comment splits into at least one field |
| Hunspell.RuleNeedsHeader | modules/utils/unmunch.ts:72 | a rule line for a flag other than the last header's is ignored |
| Hunspell.RuleLine | modules/utils/unmunch.ts:72-95 | an accepted rule line appends one rule to its own flag's table and nothing else; `0` means an empty strip or add, and cross-product permission comes from the header |
| Hunspell.AnchorSpec | modules/utils/unmunch.ts:79-82 | a condition starting with `^` or `.` is kept; otherwise a prefix condition is anchored at the start and a suffix condition at the end |
| Hunspell.StepInvariant | modules/utils/unmunch.ts:41-102 | each line keeps the invariant: every table was opened by an earlier header line, and every rule in it comes from an earlier rule line whose condition compiles |
| Hunspell.StepFromInvariant | modules/utils/unmunch.ts:41-102 | the invariant holds after the remaining lines |
| Hunspell.ParseAffixFileSpec | modules/utils/unmunch.ts:27-105 | the parsed affix data satisfies the invariant for the whole file |
| Unmunch.InGather | modules/utils/unmunch.ts:164-183 | a rule is gathered iff it passes the filter and is listed under one of the flags |
| Unmunch.StripEnd | modules/utils/unmunch.ts:187 | an empty strip keeps the word, and a strip of length n drops the last n characters (everything if the word is shorter) |
| Unmunch.StripStart | modules/utils/unmunch.ts:210 | an empty strip keeps the word, and a strip of length n drops the first n characters |
| Unmunch.UnmunchWord | modules/utils/unmunch.ts:150-253 | the forms of one entry have no repeats |
| Unmunch.ForbiddenWord | modules/utils/unmunch.ts:153-156 | an entry carrying the forbidden-word flag has no forms |
| Unmunch.UnmunchWordSpec | modules/utils/unmunch.ts:158-250 | otherwise a form is produced iff it is the stem (without the need-affix flag), a suffix form, or a prefix form with its cross products |
| Unmunch.StemIncluded | modules/utils/unmunch.ts:159-161 | the stem itself is a form unless the entry needs an affix |
| Unmunch.SuffixIncluded | modules/utils/unmunch.ts:186-192 | each suffix the entry's flags allow, whose condition matches and which does not need an affix, gives its form |
| Unmunch.PrefixIncluded | modules/utils/unmunch.ts:209-215 | likewise for each allowed prefix |
| Unmunch.CrossProductIncluded | modules/utils/unmunch.ts:218-234 | a cross-product prefix combines with every applicable suffix of the entry |
| Unmunch.UnmunchAllSpec | modules/utils/unmunch.ts:262-271 | the dictionary's forms are sorted, have no repeats, and are exactly the forms of its entries |
| Unmunch.UnmunchLines | modules/utils/unmunch.ts:135-145 | a form belongs to the parsed lines' expansion iff some line parses to an entry producing it |
| Unmunch.UnmunchSpec | modules/utils/unmunch.ts:258-272 | the whole pipeline: sorted, no repeats, and a form is listed iff some dictionary line after the first parses to an entry that expands to it |
| StringSort.SortStrings | modules/utils/unmunch.ts:271 | sorting gives the same strings, as a multiset, in ascending order |
| StringSort.SortStringsSet | server/api/words.get.ts:19 | sorting a list without repeats keeps it without repeats and with the same elements |
| Strings.Trim | app/utils/sync.ts:13 | the result starts and ends with no whitespace and is the input with leading and trailing whitespace removed |
| Strings.TrimIdempotent | app/utils/sync.ts:13 | trimming twice is trimming once |
| Strings.JoinSplit | modules/utils/unmunch.ts:29 | joining the pieces of a split with the separator gives the text back |
| Strings.TokensOfJoin | modules/utils/unmunch.ts:45 | splitting on whitespace runs recovers words joined by single spaces |
| Strings.PadStart | shared/utils.ts:8-9 | the padded text is at least the width, ends with the input and is filled before it |
| Strings.ParseNatToString | app/utils/word.ts:11 | the decimal text of a number reads back as the number |
| Seqs.Dedup | app/utils/sync.ts:43 | removing repeats gives a list without repeats with the same elements |
| Numeric.RoundOfQuotient | app/utils/score.ts:39 | rounding a quotient of integers, half up, is the integer quotient `(2a + b) / 2b` |

## Left out

- Transport and timers are not modelled. PartyKit sockets, `setTimeout`, `await` and storage promises become events and effects in a pure state machine. Connection identities are opaque, and no concurrency between handlers is modelled.
- Room storage listing order: `storage.list()` is modelled in insertion order. The real store lists keys sorted, which only changes the order of `sync-puzzle` broadcasts and of `init` counts.
- JSON: only the shapes the code relies on are modelled. A stored value is an array of words or something else, and a frame is parsed, unparseable or of an unknown type. Element types inside arrays are not checked, and neither is a non-array value under the popularity queue key.
- JavaScript `in` on a room's client puzzles (`clientPuzzles[puzzleKey] || []`) is modelled as a plain lookup. Inherited property names are not modelled there.
- Case mapping is ASCII only: `toUpperCase` and `toLowerCase` act on ASCII letters and leave every other character alone. `trim` and the `\s` of the word-splitting pattern use the full ECMAScript WhiteSpace and LineTerminator set (`Strings.IsWhitespace`). Strings are sequences of code points rather than UTF-16 units, so `length`, `split('')` and the default `sort` order are by code point.
- Floating point is modelled as exact reals: percentages, fill widths and `Math.round` (half up). JavaScript doubles are not modelled.
- Dates are modelled without `Date`. Streaks work on day numbers. `getClosestDate` and `getClosestAvailableDate` take the day of a date text as a parameter. Parsing, time zones and the clock are not modelled. `new Date().toISOString()` and `getLocalDateString`'s `Date` argument become the year, month and day fields.
- Dates.GetClosestDate: `day` is total, so the NaN path is not modelled. In the source, an unparseable target makes every comparison false and `targetDate` comes back, and an unparseable cached date is never chosen.
- Language.DefaultLanguage: `useLocalStorage` under `pangrum-language` lets a stored language override the query or the default. Browser storage is not part of this model, so the stored override is not modelled.
- Randomness is modelled as parameters. `generateCode` takes its six draws. The words endpoint's random puzzle choice and its shuffle are the `fallback` letters.
- The words endpoint's `ohash` is a hash parameter. The word list and the puzzle choices are inputs.
- PuzzleWords.MaskSpec: the mask regex's `.` does not match line terminators; words are taken to have none.
- PuzzleWords.PuzzleLetters: a repeated `letters` query parameter (an array) is not modelled; the query is text or absent.
- Regular expressions are oracles. The affix conditions are asked of `compiles` and `test`, which take the regular-expression text. Reading the `.aff` and `.dic` files becomes their contents as text.
- The history's `level` is always null in the source and is not modelled. The cross-tab `storage` event simply reloads the history.
- URL parsing is not modelled. `parseWordsApiUrl` and the cache scan work on the path. The `?sync=` link handling (`history.replaceState` and its toast) and the QR code are not modelled.
- Analytics, service worker, word definitions, hints, particles, notifications, auto-update and UI-language composables are not part of this model.
- `hasBackgroundSyncSupport` is an environment probe and is not modelled.
- `useSyncState` only exposes read-only views of the session state and is not modelled separately.
- `currentStepHighlight`, `totalSteps`, `resetInput`, `copyCode` and `handleDisable` are pure projections or delegations and are not modelled.
