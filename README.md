# Miko reading history, chapter navigation and search — a Dafny model

Miko is a React web and mobile application for reading Indonesian comics (manga, manhwa, manhua) fetched from a public comic API. The model covers:

- how the screens keep the **reading history** in the browser's `localStorage`;
- how the readers move between **chapters**;
- how the search screen **paginates**;
- how the last search is stored and cleared;
- how the history screen loads, sorts and resumes records;
- how the development proxy **rewrites** request paths.

There are three screens (the separate `ComicInfoPage`/`ReadComicPage`, and the copies defined inline in `Layout.js`). Each inserts into the same `readingHistory` list with its own policy:

| policy | used by | key | existing record | new record | cap |
|---|---|---|---|---|---|
| `History.UpsertKeepIdentity` | `ReadComicPage.js`, `ComicInfoPage.js` | title | only chapter and timestamp change | in front | first 50 |
| `History.UpsertOverwrite` | reader in `Layout.js` | title | every field replaced | in front | first 50 |
| `History.UpsertByUrl` | comic page in `Layout.js` | `manga_url` | chapter and source change | appended at the end | none |

Each policy comes with lemmas:

- what an update changes and what it leaves alone;
- where an insert goes;
- that the key stays unique.

Two navigation models sit side by side:

- **By ordinal** (`ReadComicPage.js`). The ordinal is the number spelled by *all* the digits of a chapter's name.
- **By list position** (the reader in `Layout.js`). Its button labels are swapped with respect to its handlers.

Stateful components are classes whose methods change fields. Their postconditions tie the new state to the specification functions above:

- `ReadComicPage.Session`;
- `ComicInfoPage.InfoPage`;
- `SearchPage.SearchScreen`;
- `HistoryPage.HistoryScreen`;
- `Layout.Shell`, `Layout.IndexReader`, `Layout.InfoScreen` and `Layout.HistoryList`;
- `Storage.LocalStorage`.

The files:

| file | module | models |
|---|---|---|
| `wrappers.dfy` | `Wrappers` | `Option` |
| `text.dfy` | `Text` | JavaScript string operations the code relies on |
| `history.dfy` | `History`, `Storage` | records, upsert policies, recency sort, `localStorage` |
| `read_comic_page.dfy` | `ReadComicPage` | `src/components/ReadComicPage.js` |
| `comic_info_page.dfy` | `ComicInfoPage` | `src/components/ComicInfoPage.js` |
| `layout.dfy` | `Layout` | `src/components/Layout.js` (shell, inline reader, inline comic page, inline history page) |
| `history_page.dfy` | `HistoryPage` | `src/components/HistoryPage.js` |
| `search_page.dfy` | `SearchPage` | `src/components/SearchPage.js` |
| `search_utils.dfy` | `SearchUtils` | `src/utils/searchUtils.js` |
| `setup_proxy.dfy` | `SetupProxy` | `src/setupProxy.js` |

The JavaScript operations in `Text` are:

- `||` and `replace` with a string pattern (the first occurrence only);
- `replace(/^\//, "")` against `replace(/^\/+/, "")`;
- `trim`, ASCII `toLowerCase`, `includes`;
- `replace(/[^0-9]/g, "")` with `parseInt`;
- `${n}`.

`localStorage` is one object. Its plain items form a map. The two JSON items are either `Missing`, `Malformed` or parsed.

Network replies, the clock, sign-in and the cloud backup enter as parameters:

- a fetch reply is a datatype naming the fetch failure and the reply shapes the code tests;
- `new Date()` is an integer `now`;
- the user and whether the backup write succeeded are arguments.

### Where the code behaves unexpectedly (the model follows the code)

- **The chapter ordinal uses all digits.** It joins every digit of the name, so "Chapter 12.5" reads as 125 (`ReadComicPage.OrdinalOfDecimalName`). A name such as "Vol 2 Ch 10" reads as 210.
- **Trimming is by position.** The check on the query before a search uses `trim()`. A query is rejected exactly when every character of it is whitespace (`Text.TrimEmptyIffBlank`), not when it "contains no words".
- **Different endpoint stripping.** `ReadComicPage.js` strips one leading slash from chapter endpoints. `ComicInfoPage.js` and `Layout.js` strip all of them (`ComicInfoPage.SlashHandlingDiffers`).
- **The `Layout.js` reader overwrites the whole record**, `manga_url` included, and does not keep the stored identity. Its save is guarded twice: the fetch path saves when the stored `lastReadChapter.name` differs from the chapter's name, and the save returns at once when it differs. So that path never writes the history (`Layout.IndexReader.OnImagesFetched`). Nothing in the code writes `lastReadChapter.name`.
- **The `Layout.js` comic page keys by `manga_url`.** It appends at the end, never cuts to 50, and stores records without `cover`, `lastReadAt` and `isFromHistory` (`History.UrlRecord`).
- **`ComicInfoPage.js` builds its info request from `searchSource`**, the stored search source in lower case, rather than from the page's `source` (`ComicInfoPage.InfoUrl`).
- **A failed image fetch keeps the previous chapter's images** rather than clearing them (`ReadComicPage.Session.OpenChapter`).
- **The reader's cloud backup decision is independent of the local save.** It sends whatever the stored history holds when the effect runs (`ReadComicPage.BackupPayload`). `isChapterInFirebase`, which it calls, is not exported by `src/utils/googleAuth.js`, so as written the check always fails and no backup is sent.
- **A resumed record opens the `Layout.js` shell's reader** with an empty chapter list. The inline reader's index is then -1 and both of its buttons are disabled (`Layout.ResumeOpensStuckReader`).

## Model

| member | source | states |
|---|---|---|
| Text.Or | src/components/ReadComicPage.js:93 | a non-empty left operand is the result; an empty one yields the right operand |
| Text.StripOneSlash | src/components/ReadComicPage.js:89 | the result is a suffix at most one shorter, and is shorter exactly when the string starts with '/' |
| Text.StripSlashesSpec | src/components/ComicInfoPage.js:47-49 | all-slash stripping removes only '/' characters from the front and leaves a suffix that does not start with '/' |
| Text.StripOneSlashLeavesSecond | src/components/ReadComicPage.js:60 | one-slash stripping turns "//x" into "/x" and "/x" into "x" |
| Text.StripSlashesOfSlashes | src/components/HistoryPage.js:71 | any number of extra leading slashes makes no difference to all-slash stripping |
| Text.StripSlashesIdempotent | src/components/SearchPage.js:78 | stripping all leading slashes twice is stripping them once |
| Text.StripSlashes | src/components/ComicInfoPage.js:47-49 | `replace(/^\/+/, "")`; its meaning (a '/'-free front removed, a suffix not starting with '/' left) is stated by Text.StripSlashesSpec |
| Text.IndexOfFrom | src/components/Layout.js:11 | the first occurrence at or after a position, or -1 when there is none |
| Text.IndexOf | src/components/Layout.js:11 | the first position of the pattern, or -1 exactly when it occurs nowhere |
| Text.LacksFirstChar | src/components/ReadComicPage.js:92 | a string without the pattern's first character does not contain the pattern |
| Text.RemoveFirst | src/components/ReadComicPage.js:92 | string-pattern replace: unchanged without an occurrence; otherwise the text before the first occurrence followed by the text after it, exactly one copy shorter |
| Text.RemoveFirstOfPrefixed | src/components/ReadComicPage.js:92 | replacing a leading pattern keeps the rest intact even when it holds further copies |
| Text.ReplacePrefixOfPrefixed | src/setupProxy.js:9 | an anchored rewrite replaces the leading pattern and keeps what follows |
| Text.ReplacePrefixOfOther | src/setupProxy.js:18 | an anchored rewrite leaves a path without the leading pattern unchanged |
| Text.ReplacePrefixOfLonger | src/setupProxy.js:9 | an anchored rewrite of a shorter pattern removes only that pattern from a longer prefix |
| Text.ReplacePrefix | src/setupProxy.js:9 | an anchored single replacement; stated by the three ReplacePrefixOf lemmas |
| Text.ToLower | src/components/ComicInfoPage.js:27 | same length, each character ASCII-lower-cased |
| Text.ToLowerIdempotent | src/components/ComicInfoPage.js:27 | lower-casing twice is lower-casing once |
| Text.TrimStartSpec | src/components/SearchPage.js:58 | trimming the front is empty exactly for blank strings, and otherwise starts with a non-whitespace character |
| Text.TrimEndKeepsFirst | src/components/SearchPage.js:58 | trimming the back of a string that starts with a non-whitespace character leaves it non-empty |
| Text.TrimEmptyIffBlank | src/components/SearchPage.js:58-59 | `trim()` gives "" exactly when every character is whitespace |
| Text.Trim | src/components/SearchPage.js:58 | `trim()` as front trimming then back trimming; its emptiness test is Text.TrimEmptyIffBlank |
| Text.Digits | src/components/ReadComicPage.js:128 | the kept characters are digits, and none are kept exactly when the name has no digit |
| Text.NoDigits | src/components/ReadComicPage.js:128 | a digit-free label contributes nothing |
| Text.AllDigitsOfConcat | src/components/ReadComicPage.js:128 | two digit runs written together form a digit run |
| Text.DigitsOfConcat | src/components/ReadComicPage.js:128 | digit extraction distributes over concatenation |
| Text.DigitsOfTwoRuns | src/components/ReadComicPage.js:128 | label, digits, separator, digits yields the two digit runs joined |
| Text.DigitsOfDigitString | src/components/ReadComicPage.js:128 | a digit string keeps every character |
| Text.DecimalValueConcat | src/components/ReadComicPage.js:128 | the value of joined digit runs is the first shifted by the second's length plus the second |
| Text.DecimalValue | src/components/ReadComicPage.js:128 | `parseInt(d, 10)` of an all-digit string; inverse of `Decimal` by Text.DecimalRoundTrip and additive over joins by Text.DecimalValueConcat |
| Text.Decimal | src/components/SearchPage.js:81 | the rendering of a number is a non-empty digit string |
| Text.DecimalRoundTrip | src/components/ReadComicPage.js:128 | parsing the rendering of a number gives the number back |
| History.HistoryTitle | src/components/ReadComicPage.js:92 | the stored title is the title with its first "Komik " removed, or "Unknown Title" exactly when that removal leaves nothing; never empty; a non-empty title without "Komik " is kept as is |
| History.ChapterName | src/components/ReadComicPage.js:95 | never empty, and a non-empty chapter name is kept |
| History.Take | src/components/ReadComicPage.js:120 | `slice(0, 50)`: a prefix of length min(n, length) |
| History.IndexWhere | src/components/ReadComicPage.js:105 | the first matching index, or -1 exactly when nothing matches |
| History.FindIndex | src/components/ReadComicPage.js:105 | the front-to-back scan returns the first matching index, or -1 |
| History.UpsertKeepIdentity | src/components/ReadComicPage.js:105-120 | the saved list never exceeds 50 records |
| History.KeepIdentityUpdates | src/components/ReadComicPage.js:105-115 | saving a stored title changes only that record's chapter and timestamp; every other position and field is unchanged |
| History.KeepIdentityInserts | src/components/ReadComicPage.js:116-120 | saving an absent title puts the record at position 0 and shifts the rest back, cutting to 50 |
| History.KeepIdentityRecords | src/components/ReadComicPage.js:105-121 | after a save of a title that is absent or among the first 50 records, the first record with the title carries the saved chapter and time, for a list of any length |
| History.KeepIdentityStep | src/components/ReadComicPage.js:107-115 | one save of a stored title keeps the length, the title's position and its identity fields |
| History.KeepIdentityUnique | src/components/ReadComicPage.js:105-120 | titles unique before a save stay unique after it |
| History.KeepIdentityTwice | src/components/ReadComicPage.js:105-120 | for a title absent or among the first 50 records, a repeated save changes only the timestamp of the one record with that title |
| History.KeepIdentityStable | src/components/ReadComicPage.js:107-115 | any sequence of saves of a stored title keeps its position and its first-stored `manga_url`, source, cover and thumbnail |
| History.KeepIdentityDropsLate | src/components/ReadComicPage.js:107-121 | a title first stored at position 50 or later is updated and then cut off: the save leaves the first 50 records and the title nowhere in them |
| History.UpsertOverwrite | src/components/Layout.js:154-169 | the saved list never exceeds 50 records |
| History.OverwriteUpdates | src/components/Layout.js:158-163 | a stored title's record becomes the new record entirely; other positions are unchanged |
| History.OverwriteInserts | src/components/Layout.js:164-169 | an absent title goes in front, the rest shifts back, cut to 50 |
| History.OverwriteUnique | src/components/Layout.js:154-169 | titles stay unique |
| History.UpsertByUrl | src/components/Layout.js:305-312 | the list grows by at most one and never shrinks |
| History.ByUrlUpdates | src/components/Layout.js:307-308 | a stored `manga_url` gets the new chapter and source; everything else is unchanged |
| History.ByUrlAppends | src/components/Layout.js:309-310 | an absent `manga_url` is appended after all stored records |
| History.ByUrlUnique | src/components/Layout.js:306-310 | `manga_url`s stay unique |
| History.UrlRecord | src/components/Layout.js:310 | the appended record: title, `manga_url` and thumbnail of the comic, the chapter and source, and no cover, timestamp or history flag |
| History.InsertByRecency | src/components/HistoryPage.js:17 | one insertion step adds exactly the one record (multiset) |
| History.SortByRecency | src/components/HistoryPage.js:17 | sorting is a permutation of the stored list |
| History.InsertMember | src/components/HistoryPage.js:17 | every element after insertion is the new record or an old element |
| History.ConsOrdered | src/components/HistoryPage.js:17 | a record no older than every element of an ordered list can lead it |
| History.InsertKeepsOrder | src/components/HistoryPage.js:17 | inserting a timestamped record keeps an ordered list ordered |
| History.SortOrders | src/components/HistoryPage.js:17 | with every record timestamped, the sorted list is most recent first |
| History.ResumeRecord | src/components/Layout.js:579-591 | the resume record has the title, the last chapter's name and endpoint, the cover (else the thumbnail), and the history flag |
| Storage.ParsedOrEmpty | src/components/ReadComicPage.js:87 | `JSON.parse(...) \|\| []`: absent reads as [], unparseable is an error, parsed is itself |
| Storage.LocalStorage.GetItem | src/utils/searchUtils.js:11-14 | `null` exactly for a missing key, else the stored text |
| Storage.LocalStorage.Valid | src/utils/searchUtils.js:10-13 | the two JSON keys are not among the plain items |
| Storage.LocalStorage.SetItem | src/components/SearchPage.js:63-64 | sets one item, nothing else changes |
| Storage.LocalStorage.RemoveItem | src/utils/searchUtils.js:4-6 | removes one item, nothing else changes |
| Storage.LocalStorage.RemoveSearchResults | src/utils/searchUtils.js:3 | the stored results become absent, nothing else changes |
| Storage.LocalStorage.SetSearchResults | src/components/SearchPage.js:33 | the stored results become the given list, nothing else changes |
| Storage.LocalStorage.SetHistory | src/components/ReadComicPage.js:121 | the stored history becomes the given list, nothing else changes |
| Storage.NameDiffers | src/components/Layout.js:100 | an absent `lastReadChapter.name` always differs from the chapter's name |
| Storage.LoadedHistory | src/components/HistoryPage.js:15-22 | a parsed history loads as a permutation of itself; an absent or unparseable one as [] |
| Storage.LoadedHistoryOrdered | src/components/HistoryPage.js:15-22 | a loaded, fully timestamped history is most recent first |
| ReadComicPage.Ordinal | src/components/ReadComicPage.js:128 | NaN (None) exactly when the name has no digit |
| ReadComicPage.OrdinalJoinsDigitRuns | src/components/ReadComicPage.js:128 | a label, digits, a separator and digits read as the two runs joined |
| ReadComicPage.OrdinalOfDecimalName | src/components/ReadComicPage.js:128 | "Chapter 12.5" has ordinal 125 |
| ReadComicPage.OrdinalOfWordName | src/components/ReadComicPage.js:128-129 | a digit-free name has no ordinal |
| ReadComicPage.OrdinalOfLabelledNumber | src/components/ReadComicPage.js:128 | a digit-free label followed by a rendered number has that number as ordinal |
| ReadComicPage.SingleDigitOrdinals | src/components/ReadComicPage.js:128 | names "6", "7", "8" have ordinals 6, 7, 8 |
| ReadComicPage.FindByOrdinal | src/components/ReadComicPage.js:131 | nothing exactly when no chapter has the target ordinal, else the first one in list order |
| ReadComicPage.NextChapter | src/components/ReadComicPage.js:147-153 | a chapter exactly when the name has an ordinal n and some chapter has n+1; then the first such |
| ReadComicPage.PreviousChapter | src/components/ReadComicPage.js:127-133 | as NextChapter with n-1 |
| ReadComicPage.DisabledIffNoOp | src/components/ReadComicPage.js:234-259 | each button (NaN target, no `isNaN` test) is disabled exactly when its handler (explicit `isNaN` guard) does nothing; both are disabled for a digit-free name |
| ReadComicPage.PreviousDisabled | src/components/ReadComicPage.js:234-237 | no chapter's ordinal equals the current ordinal minus one, NaN when the name has no digits; related to the handler by ReadComicPage.DisabledIffNoOp |
| ReadComicPage.NextDisabled | src/components/ReadComicPage.js:256-259 | as PreviousDisabled with plus one |
| ReadComicPage.AdjacencyScenario | src/components/ReadComicPage.js:147-153 | chapters "8","7","6": next from 7 is 8, previous is 6, next from 8 is nothing |
| ReadComicPage.ResolveIndex | src/components/ReadComicPage.js:17-20 | the first chapter with the endpoint, else 0; in range for a non-empty list |
| ReadComicPage.SavedHistory | src/components/ReadComicPage.js:85-125 | unchanged on parse failure or missing comic; otherwise parsed and at most 50 records |
| ReadComicPage.SaveRecordsChapter | src/components/ReadComicPage.js:85-125 | after a save of a title absent or among the first 50 records, the comic's title is stored with the chapter just opened (one slash stripped) and the save time |
| ReadComicPage.NewEntry | src/components/ReadComicPage.js:91-103 | every fallback of the new record: title, chapter name, endpoint with one leading slash removed, cover and thumbnail; the URL, source and save time as given |
| ReadComicPage.RepeatedSaveScenario | src/components/ReadComicPage.js:105-115 | a second save of the same title with another `manga_url` keeps one record with the first `manga_url` and the new chapter |
| ReadComicPage.SaveToHistory | src/components/ReadComicPage.js:85-125 | the in-place save leaves exactly `SavedHistory` of the old stored history; other items unchanged |
| ReadComicPage.BackupPayload | src/components/ReadComicPage.js:23-43 | a backup is sent exactly for a signed-in user whose chapter is reported absent and a parseable history, and it is the stored history |
| ReadComicPage.ImagesUrlStripsOneSlash | src/components/ReadComicPage.js:60-61 | one leading slash does not reach the image request, a second one does |
| ReadComicPage.ImagesUrl | src/components/ReadComicPage.js:60-61 | the image request is the API base, the source and the endpoint with one leading slash removed if it has one, else the whole endpoint |
| ReadComicPage.Session.constructor | src/components/ReadComicPage.js:15-21 | the index is the resolved position of the chapter, images empty, loading |
| ReadComicPage.Session.MoveTo | src/components/ReadComicPage.js:131-135 | selects the first chapter with the target ordinal, clears the images and moves the index to its endpoint; else nothing changes |
| ReadComicPage.Session.HandleNextChapter | src/components/ReadComicPage.js:147-166 | hands on exactly `NextChapter`, with the index and images as in MoveTo |
| ReadComicPage.Session.HandlePreviousChapter | src/components/ReadComicPage.js:127-145 | hands on exactly `PreviousChapter` |
| ReadComicPage.Session.ChapterListChanged | src/components/ReadComicPage.js:45-54 | the local list is replaced and the index re-resolved |
| ReadComicPage.Session.OpenChapter | src/components/ReadComicPage.js:45-83 | returns the image request `ImagesUrl` of the new chapter; new chapter, index re-resolved, images replaced only by a good reply, history saved regardless |
| ComicInfoPage.InfoUrlNormalises | src/components/ComicInfoPage.js:23-27 | the info request ignores the case of the stored source and extra leading slashes |
| ComicInfoPage.InfoUrl | src/components/ComicInfoPage.js:23-27 | the info request from the lower-cased stored source and the all-slash-stripped manga URL; normalisation stated by ComicInfoPage.InfoUrlNormalises |
| ComicInfoPage.NewEntry | src/components/ComicInfoPage.js:51-66 | every fallback of the new record: title, chapter name, endpoint with all slashes stripped, cover and thumbnail |
| ComicInfoPage.SavedHistory | src/components/ComicInfoPage.js:43-88 | unchanged exactly on parse failure; otherwise parsed, at most 50 |
| ComicInfoPage.SaveExisting | src/components/ComicInfoPage.js:68-78 | a stored title keeps its identity and gets the chapter and time; other positions unchanged |
| ComicInfoPage.SaveAbsent | src/components/ComicInfoPage.js:79-84 | an absent title goes first, cut to 50 |
| ComicInfoPage.SaveKeepsTitlesUnique | src/components/ComicInfoPage.js:68-84 | titles stay unique |
| ComicInfoPage.SlashHandlingDiffers | src/components/ComicInfoPage.js:47-49 | for "//x" this page stores "x" and the reader stores "/x" |
| ComicInfoPage.SaveToHistory | src/components/ComicInfoPage.js:43-88 | the in-place save leaves exactly `SavedHistory`; other items unchanged |
| ComicInfoPage.FirstChapter | src/components/ComicInfoPage.js:171 | the last list element, nothing for an empty list |
| ComicInfoPage.LatestChapter | src/components/ComicInfoPage.js:32 | the first list element, nothing for an empty list |
| ComicInfoPage.FirstAndLatest | src/components/ComicInfoPage.js:171-176 | one chapter: both buttons open it; more: opposite ends |
| ComicInfoPage.InfoPage.constructor | src/components/ComicInfoPage.js:7-16 | nothing loaded or selected, loading |
| ComicInfoPage.InfoPage.OnInfoFetched | src/components/ComicInfoPage.js:19-38 | returns the info request `InfoUrl` of the stored search source and the manga's URL; a reply sets the info and manga URL, and the latest chapter only when a chapter list came; a failure changes only the loading flag |
| ComicInfoPage.InfoPage.OnBack | src/components/ComicInfoPage.js:104-113 | selects the chapter, saves only when the stored name differs; none clears the selection |
| ComicInfoPage.InfoPage.SelectFirstChapter | src/components/ComicInfoPage.js:171 | selects `FirstChapter`, or nothing changes without a chapter list |
| ComicInfoPage.InfoPage.SelectLatestChapter | src/components/ComicInfoPage.js:176 | selects the latest chapter |
| Layout.SelectedFor | src/components/Layout.js:10-20 | flagged as from history exactly when already flagged or its endpoint contains "chapter"; no other field changes |
| Layout.ScreenFor | src/components/Layout.js:25-39 | tabs exactly without a selection, the reader exactly for a flagged record, otherwise the comic page; the reader gets the record's name, endpoint and thumbnail as its chapter, the comic page gets the selected record, and both get the source |
| Layout.Shell.constructor | src/components/Layout.js:6-8 | nothing selected |
| Layout.Shell.HandleMangaSelect | src/components/Layout.js:10-20 | stores `SelectedFor` of the record and the source |
| Layout.Shell.Back | src/components/Layout.js:30 | clears the selection |
| Layout.InitialIndex | src/components/Layout.js:83-85 | the first chapter with the endpoint, or -1 exactly when none |
| Layout.StepsStayInBounds | src/components/Layout.js:175-195 | each handler acts exactly under its guard, moves by one, and stays in the list |
| Layout.PreviousIndex | src/components/Layout.js:176 | the position `handlePreviousChapter` moves to; bounds stated by Layout.StepsStayInBounds |
| Layout.NextIndex | src/components/Layout.js:187 | the position `handleNextChapter` moves to; bounds stated by Layout.StepsStayInBounds |
| Layout.DisabledIffNoOp | src/components/Layout.js:243-264 | each button is disabled exactly when the (swapped) handler does nothing |
| Layout.PreviousLabelDisabled | src/components/Layout.js:245 | the "Previous" button's `disabled`; tied to `NextIndex` by Layout.DisabledIffNoOp |
| Layout.NextLabelDisabled | src/components/Layout.js:258 | the "Next" button's `disabled`; tied to `PreviousIndex` by Layout.DisabledIffNoOp |
| Layout.ResumeOpensStuckReader | src/components/Layout.js:25-32 | a resumed record opens the reader with no list, index -1, both buttons disabled |
| Layout.OverwriteEntry | src/components/Layout.js:141-153 | every fallback of the overwriting record: title, chapter name, endpoint with all leading slashes removed, cover and thumbnail; the URL, source and save time as given |
| Layout.SavedHistory | src/components/Layout.js:125-173 | unchanged whenever the stored name differs, on parse failure, or without comic; otherwise parsed, at most 50 |
| Layout.GuardedSaveOverwrites | src/components/Layout.js:154-169 | when the body runs on a stored title the record is the new one, `manga_url` included |
| Layout.SaveToHistory | src/components/Layout.js:125-173 | the in-place save leaves exactly `SavedHistory` |
| Layout.IndexReader.constructor | src/components/Layout.js:80-85 | the index is `InitialIndex` |
| Layout.IndexReader.HandlePreviousChapter | src/components/Layout.js:175-184 | acts exactly when the index is positive; then hands on the chapter one position back |
| Layout.IndexReader.HandleNextChapter | src/components/Layout.js:186-195 | acts exactly below the last position; then hands on the next position |
| Layout.IndexReader.OnImagesFetched | src/components/Layout.js:87-123 | returns the request `ReaderImagesUrl` of the current chapter; a good reply shows the images; the stored history is never changed |
| Layout.ReaderImagesUrl | src/components/Layout.js:90-93 | the inline reader's image request; stated by Layout.ReaderImagesUrlIgnoresSlashes |
| Layout.ReaderImagesUrlIgnoresSlashes | src/components/Layout.js:90-93 | any number of leading slashes on the endpoint asks for the same images |
| Layout.IndexReader.ChapterChanged | src/components/Layout.js:330-332 | a new chapter prop replaces the chapter and keeps the list position and images |
| Layout.SavedByUrl | src/components/Layout.js:304-313 | an error exactly on parse failure; otherwise the list grows by at most one |
| Layout.InfoScreen.constructor | src/components/Layout.js:275-280 | nothing selected |
| Layout.InfoScreen.SaveToHistory | src/components/Layout.js:304-313 | throws exactly on parse failure; otherwise stores `SavedByUrl` |
| Layout.InfoScreen.OnBack | src/components/Layout.js:330-339 | the chapter is selected even when the save then throws; saves only when the stored name differs |
| Layout.HistoryList.constructor | src/components/Layout.js:563-564 | empty list |
| Layout.HistoryList.Mount | src/components/Layout.js:566-577 | the list is `LoadedHistory` of the store |
| HistoryPage.InfoUrlIgnoresSlashes | src/components/HistoryPage.js:71-72 | extra leading slashes on `manga_url` ask for the same info |
| HistoryPage.InfoUrl | src/components/HistoryPage.js:71-72 | the info request from the record's source and its all-slash-stripped `manga_url`; stated by HistoryPage.InfoUrlIgnoresSlashes |
| HistoryPage.ShownName | src/components/HistoryPage.js:31 | `displayName || email`, the name Backup shows after a sign-in |
| HistoryPage.ResumeFor | src/components/HistoryPage.js:68-101 | nothing exactly for a reply without data; otherwise the resume record, with the info and its list (or []) on a reply and [] on a failure |
| HistoryPage.HistoryScreen.constructor | src/components/HistoryPage.js:6-11 | the initial state |
| HistoryPage.HistoryScreen.Mount | src/components/HistoryPage.js:13-35 | clears the search items, loads the sorted history, shows a signed-in user and the backup count; when the count cannot be read the count is unchanged |
| HistoryPage.HistoryScreen.Backup | src/components/HistoryPage.js:38-49 | sends the shown list exactly when sign-in and the write succeed; the count is the new one exactly when the list is sent and the count can be read; the list is never changed |
| HistoryPage.HistoryScreen.HandleGoogleBackup | src/components/HistoryPage.js:37-50 | sends the list exactly when signed in and the write succeeds; a sign-in sets the authenticated flag and shown name; the count is the new one exactly when the list is sent and the count can be read, and is unchanged otherwise; list, loading flag and warning unchanged |
| HistoryPage.HistoryScreen.ConfirmBackup | src/components/HistoryPage.js:52-66 | closes the warning; sends the list exactly when signed in and the write succeeds; a sign-in sets the authenticated flag and shown name; the count is the new one exactly when the list is sent and the count can be read, and is unchanged otherwise; list and loading flag unchanged |
| HistoryPage.HistoryScreen.HandleMangaClick | src/components/HistoryPage.js:68-101 | returns the info request `InfoUrl` of the record's source and URL; hands on exactly `ResumeFor` of the clicked record and ends not loading; list, sign-in state, shown name, count and warning unchanged |
| SearchPage.SearchPathIgnoresSlashes | src/components/SearchPage.js:78 | leading slashes of the query never reach the request |
| SearchPage.SearchPathExample | src/components/SearchPage.js:79-81 | page 2 has a page segment and page 1 has none; the type is lower-cased and the query's slash removed |
| SearchPage.SearchPath | src/components/SearchPage.js:78-81 | the request path, with the page written by SearchPage.PageNumber; stated by SearchPage.SearchPathIgnoresSlashes and SearchPage.SearchPathExample |
| SearchPage.PageNumber | src/components/SearchPage.js:81 | `${page}`, the decimal form of the page; stated by SearchPage.ExampleParts |
| SearchPage.ExampleParts | src/components/SearchPage.js:79-81 | the pieces of the example path: "Manga" lower-cased, "/solo" without its slash, page 2 written "2" |
| SearchPage.Below | src/components/SearchPage.js:94 | JavaScript's `page < max_page`, false for an absent `max_page` at the positive pages used; the guard of LoadMoreResults (line 104) |
| SearchPage.SearchScreen.constructor | src/components/SearchPage.js:6-30 | starts from the stored search, page 1, no max page |
| SearchPage.SearchScreen.Choose | src/components/SearchPage.js:27-30 | only the drop-down values change |
| SearchPage.Succeeded | src/components/SearchPage.js:86-94 | a reply the handler acts on: status 200 with the `data.data` it reads; the condition of SearchPage.SearchScreen.FetchResults |
| SearchPage.SearchScreen.FetchResults | src/components/SearchPage.js:75-101 | on status 200 (SearchPage.Succeeded): results replaced or extended, max page set, more exactly while below it; otherwise none of them change |
| SearchPage.SearchScreen.HandleSearch | src/components/SearchPage.js:56-73 | a blank query changes nothing; otherwise it commits and stores the drop-downs, resets the paging and fetches page 1 as a new search |
| SearchPage.SearchScreen.LoadMoreResults | src/components/SearchPage.js:103-109 | fetches the next page of the last query exactly while below the max page; a good reply appends its results, sets the max page and sets `hasMore` to next page < max page; a failed one changes none of the three |
| SearchPage.SearchScreen.Persist | src/components/SearchPage.js:32-35 | stores the results and the last query |
| SearchPage.PersistedSearchReadsBack | src/components/SearchPage.js:32-35 | persisted results and query read back unchanged |
| SearchUtils.ItemOr | src/utils/searchUtils.js:18-20 | absent or empty gives the fallback, else the stored text |
| SearchUtils.Read | src/utils/searchUtils.js:10-21 | an error exactly for unparseable results; each field is the stored value or its default; source and type never empty |
| SearchUtils.GetStoredSearchResults | src/utils/searchUtils.js:10-21 | on the store: an error exactly for unparseable results; each field is the stored value or its default |
| SearchUtils.Cleared | src/utils/searchUtils.js:2-8 | the three search keys are gone and every other item is kept |
| SearchUtils.EmptyStoreGivesDefaults | src/utils/searchUtils.js:16-21 | an empty store reads as the defaults |
| SearchUtils.ClearThenReadGivesDefaults | src/utils/searchUtils.js:2-21 | clear then read gives the defaults whatever was stored |
| SearchUtils.ClearSearchResults | src/utils/searchUtils.js:2-8 | removes the four items, keeps the history and returns true |
| SetupProxy.RewritesPrefixed | src/setupProxy.js:9-27 | each rule removes or replaces its leading prefix and keeps the rest |
| SetupProxy.KomikuRuleOnKomikuApiPath | src/setupProxy.js:9 | the Komiku pattern applied to a "/api/komiku-api" path leaves "-api" |
| SetupProxy.SecondCopySurvives | src/setupProxy.js:27 | only the leading copy of a prefix is rewritten |
| SetupProxy.RewriteKomiku | src/setupProxy.js:9 | a path starting with "/api/komiku" loses that prefix; any other path is unchanged |
| SetupProxy.RewriteKomikuApi | src/setupProxy.js:18 | a path starting with "/api/komiku-api" loses that prefix; any other path is unchanged |
| SetupProxy.RewriteComic | src/setupProxy.js:27 | a path starting with "/api/comic" has that prefix replaced by "/api/fly"; any other path is unchanged |

## Left out

- Network fetches are not performed: every reply is an input datatype. JSON decoding is reduced to the shapes the code tests, and HTTP status values other than 200 are not told apart.
- Firebase is not modelled; sign-in, the backup write, `getCurrentUser` and `getBackupCount` are inputs. A `getBackupCount` that rejects or throws is `None`: the backup handlers' `catch` leaves the count as it was, and on mount nothing catches it, so the count is never set. `src/utils/googleAuth.js` does not export `isChapterInFirebase`, so that call is an input that can fail.
- Dates are integers. `new Date().toISOString()`, reading back an ISO string, and `formatDate` are not modelled.
- History.SortOrders: sortedness is proved only when every record has a timestamp. With a record lacking `lastReadAt` the source's comparator yields NaN and its order is engine-defined.
- History.SortByRecency: modelled as a stable insertion sort on values, not the engine's in-place `Array.prototype.sort`.
- History.KeepIdentityStep and KeepIdentityStable are stated for stored lists of at most 50 records, because they promise that a save keeps the list's length. Longer lists do occur: the by-URL save of the `Layout.js` comic page (History.UpsertByUrl) appends without cutting, and it is the save that the app as built, which renders only `Layout`, runs. History.KeepIdentityRecords, KeepIdentityTwice and ReadComicPage.SaveRecordsChapter need only that the title is absent or stored among the first 50 records. A title first stored at position 50 or later is updated and then cut off by `slice(0, 50)` (History.KeepIdentityDropsLate).
- Storage.LocalStorage keeps the two JSON items apart from the plain ones. An item written with `setItem` under "readingHistory" or "searchResults" would in the browser replace the JSON item. The model keeps it as a plain item instead, and `Valid` then fails (Storage.LocalStorage.SetItem says when). No modelled screen writes those keys that way.
- Text.ToLower: only ASCII letters are mapped; `toLowerCase` maps all of Unicode.
- Text.DecimalValue: unbounded integers; `parseInt` loses precision past 2^53.
- Records carry only the fields the code reads or writes; other properties spread by `...` are dropped, and an absent string property is the empty string. Where the code calls a method on such a property, the source throws inside its `try` and saves nothing, while the model saves a record: a missing `manga.title` (ReadComicPage.js:92, Layout.js:142) or a comic info without a title (ComicInfoPage.js:52-53) gives "Unknown Title" (ReadComicPage.NewEntry, Layout.OverwriteEntry, ComicInfoPage.NewEntry), and a missing `chapter.endpoint` (ReadComicPage.js:89, ComicInfoPage.js:47-49, Layout.js:130) gives an endpoint of "".
- A stored `searchResults` item that is the empty string reads as absent (it is falsy in `getStoredSearchResults`).
- React scheduling is not modelled: effects are methods called in the order the code declares them, `setTimeout(..., 0)` hands on at once, and the `IntersectionObserver` trigger of `loadMoreResults` is a call.
- Stale fetch replies (a reply arriving after another search started) are not modelled; each fetch is one call with its reply.
- The rendering (JSX, themes, loading spinners, alerts) is not modelled.
- The `Layout.js` inline `SearchPage` and `HomePage` are not part of this model. The inline comic page's `fetchComicInfo` and its buttons are not modelled; its save and `onBack` are.
- `src/SearchHelper.js`, `src/components/SettingsPage.js`, `src/components/HomePage.js`, `src/App.js` and `capacitor.config.ts` are not part of this model.
- Pulling the history back from the cloud, sign-out, eviction by recency, and what happens on a reader's first open without a chapter list are not modelled: nothing in the code performs them.
- The close buttons that call `onBack(null)` are `Layout.Shell.Back` and the `OnBack` methods with no chapter; the button markup is left out.
