/**
 * src/components/Layout.js: the shell App.js renders, and the screens it
 * defines inline.  The inline reader navigates by list position, its history
 * save overwrites whole records and is guarded so that the fetch path never
 * reaches it; the inline comic page saves by `manga_url` and appends.
 */
module Layout {
  import opened Wrappers
  import opened Text
  import opened History
  import opened Storage
  import ReadComicPage

  // ---------------------------------------------------------------------------
  // The shell

  /** The record `handleMangaSelect` stores: marked as coming from history
      when its endpoint is non-empty and contains "chapter", else unchanged. */
  function SelectedFor(m: MangaItem): (r: MangaItem)
    ensures r.isFromHistory <==> m.isFromHistory || (m.endpoint != "" && Contains(m.endpoint, "chapter"))
    ensures r.(isFromHistory := m.isFromHistory) == m
    ensures !(m.endpoint != "" && Contains(m.endpoint, "chapter")) ==> r == m
  {
    if m.endpoint != "" && Contains(m.endpoint, "chapter") then m.(isFromHistory := true) else m
  }

  /** What the shell shows (lines 25-46). */
  datatype Screen = Tabs | Reader(chapter: Chapter, source: string) | Info(manga: MangaItem, source: string)

  /** A record marked as coming from history opens the reader on that record,
      with an empty chapter list; any other opens the comic page. */
  function ScreenFor(selected: Option<MangaItem>, source: string): (r: Screen)
    ensures selected.None? <==> r.Tabs?
    ensures r.Reader? <==> selected.Some? && selected.value.isFromHistory
    ensures r.Reader? ==>
              r.chapter == Chapter(selected.value.name, selected.value.endpoint, selected.value.thumbnail) && r.source == source
    ensures r.Info? ==> r.manga == selected.value && r.source == source
  {
    match selected
    case None => Tabs
    case Some(m) =>
      if m.isFromHistory then Reader(Chapter(m.name, m.endpoint, m.thumbnail), source) else Info(m, source)
  }

  class Shell {
    var selectedManga: Option<MangaItem>
    var currentSource: string

    constructor ()
      ensures selectedManga.None? && currentSource == ""
    {
      selectedManga := None;
      currentSource := "";
    }

    /** `handleMangaSelect` (lines 10-20). */
    method HandleMangaSelect(manga: MangaItem, source: string)
      modifies this
      ensures selectedManga == Some(SelectedFor(manga)) && currentSource == source
    {
      selectedManga := Some(SelectedFor(manga));
      currentSource := source;
    }

    /** The `onBack` the shell gives both screens: back to the tabs, whatever
        chapter the screen passes. */
    method Back()
      modifies this
      ensures selectedManga.None? && currentSource == old(currentSource)
    {
      selectedManga := None;
    }
  }

  // ---------------------------------------------------------------------------
  // The inline reader: position-based navigation

  /** The initial `currentChapterIndex`: `findIndex` by endpoint, -1 when
      the chapter is not listed. */
  function InitialIndex(list: seq<Chapter>, endpoint: string): (r: int)
    ensures -1 <= r < |list|
    ensures r == -1 <==> forall i :: 0 <= i < |list| ==> list[i].endpoint != endpoint
    ensures r != -1 ==> list[r].endpoint == endpoint && forall i :: 0 <= i < r ==> list[i].endpoint != endpoint
  {
    IndexWhere(list, EndpointIs(endpoint))
  }

  /** The position `handlePreviousChapter` moves to, if it acts. */
  function PreviousIndex(idx: int): Option<int> {
    if idx > 0 then Some(idx - 1) else None
  }

  /** The position `handleNextChapter` moves to, if it acts. */
  function NextIndex(list: seq<Chapter>, idx: int): Option<int> {
    if idx < |list| - 1 then Some(idx + 1) else None
  }

  /** From any position the reader can hold, both handlers move by exactly
      one and only to a position inside the list. */
  lemma StepsStayInBounds(list: seq<Chapter>, idx: int)
    requires -1 <= idx < |list|
    ensures PreviousIndex(idx).Some? <==> idx > 0
    ensures PreviousIndex(idx).Some? ==> PreviousIndex(idx).value == idx - 1 && 0 <= idx - 1 < |list|
    ensures NextIndex(list, idx).Some? <==> idx < |list| - 1
    ensures NextIndex(list, idx).Some? ==> NextIndex(list, idx).value == idx + 1 && 0 <= idx + 1 < |list|
  {
  }

  /** The button labelled "Previous" runs `handleNextChapter`; its
      `disabled` is `currentChapterIndex >= chapterList.length - 1`. */
  predicate PreviousLabelDisabled(list: seq<Chapter>, idx: int) {
    idx >= |list| - 1
  }

  /** The button labelled "Next" runs `handlePreviousChapter`; its
      `disabled` is `currentChapterIndex <= 0`. */
  predicate NextLabelDisabled(idx: int) {
    idx <= 0
  }

  /** Each button is disabled exactly when the handler it runs would do
      nothing (the labels are swapped with respect to the handlers). */
  lemma DisabledIffNoOp(list: seq<Chapter>, idx: int)
    ensures PreviousLabelDisabled(list, idx) <==> NextIndex(list, idx).None?
    ensures NextLabelDisabled(idx) <==> PreviousIndex(idx).None?
  {
  }

  /** A resumed history record opens the reader with no chapter list, where
      the current index is -1 and both buttons are disabled. */
  lemma ResumeOpensStuckReader(item: HistoryEntry, source: string)
    ensures var screen := ScreenFor(Some(SelectedFor(ResumeRecord(item))), source);
      && screen.Reader?
      && screen.chapter.endpoint == item.lastReadChapter.endpoint
      && InitialIndex([], screen.chapter.endpoint) == -1
      && PreviousLabelDisabled([], -1) && NextLabelDisabled(-1)
  {
  }

  /** The record the inline `saveToHistory` builds (lines 141-153). */
  function OverwriteEntry(mangaUrl: string, manga: ComicInfo, chapter: Chapter, source: string, now: int): (e: HistoryEntry)
    ensures RemoveFirst(manga.title, "Komik ") == "" ==> e.title == "Unknown Title"
    ensures RemoveFirst(manga.title, "Komik ") != "" ==> e.title == RemoveFirst(manga.title, "Komik ")
    ensures chapter.name == "" ==> e.lastReadChapter.name == "Unknown Chapter"
    ensures chapter.name != "" ==> e.lastReadChapter.name == chapter.name
    ensures e.lastReadChapter.endpoint == StripSlashes(chapter.endpoint)
    ensures manga.thumbnail == "" ==> e.cover == "Unknown Thumbnail" && e.thumbnail == chapter.thumbnail
    ensures manga.thumbnail != "" ==> e.cover == manga.thumbnail && e.thumbnail == manga.thumbnail
    ensures e.mangaUrl == mangaUrl && e.source == source && e.lastReadAt == Some(now) && e.isFromHistory
  {
    HistoryEntry(
      HistoryTitle(manga.title),
      Or(mangaUrl, ""),
      ChapterRef(ChapterName(chapter.name), StripSlashes(chapter.endpoint)),
      source,
      Or(manga.thumbnail, "Unknown Thumbnail"),
      Or(manga.thumbnail, chapter.thumbnail),
      Some(now),
      true)
  }

  /** The stored history after the inline `saveToHistory` (lines 125-173):
      it returns early when the stored `lastReadChapter.name` differs from the
      chapter's name; otherwise it overwrites or inserts in front, and cuts to
      50.  A parse failure or a missing `manga` is caught and saves nothing. */
  function SavedHistory(stored: Json<HistoryEntry>, items: map<string, string>, mangaUrl: string,
                        manga: Option<ComicInfo>, chapter: Chapter, source: string, now: int): (r: Json<HistoryEntry>)
    ensures NameDiffers(items, chapter.name) ==> r == stored
    ensures stored.Malformed? || manga.None? ==> r == stored
    ensures !stored.Malformed? && manga.Some? && !NameDiffers(items, chapter.name) ==>
              r.Parsed? && |r.items| <= Capacity
  {
    var loaded := ParsedOrEmpty(stored);
    if loaded.None? || NameDiffers(items, chapter.name) || manga.None? then stored
    else Parsed(UpsertOverwrite(loaded.value, OverwriteEntry(mangaUrl, manga.value, chapter, source, now)))
  }

  /** When the guarded body does run on a stored title, the record becomes
      the new record entirely: its `manga_url` is overwritten and the endpoint
      keeps no leading slash. */
  lemma GuardedSaveOverwrites(h: seq<HistoryEntry>, items: map<string, string>, mangaUrl: string,
                              manga: ComicInfo, chapter: Chapter, source: string, now: int)
    requires !NameDiffers(items, chapter.name)
    requires IndexOfTitle(h, HistoryTitle(manga.title)) != -1
    ensures var r := SavedHistory(Parsed(h), items, mangaUrl, Some(manga), chapter, source, now).items;
      var i := IndexOfTitle(h, HistoryTitle(manga.title));
      && (i < |r| ==> r[i].mangaUrl == mangaUrl && r[i] == OverwriteEntry(mangaUrl, manga, chapter, source, now))
      && (forall k :: 0 <= k < |r| && k != i ==> r[k] == h[k])
  {
    OverwriteUpdates(h, OverwriteEntry(mangaUrl, manga, chapter, source, now));
  }

  /** The inline `saveToHistory`, on the stored history. */
  method SaveToHistory(store: LocalStorage, mangaUrl: string, manga: Option<ComicInfo>,
                       chapter: Chapter, source: string, now: int)
    modifies store
    ensures store.readingHistory ==
              SavedHistory(old(store.readingHistory), old(store.items), mangaUrl, manga, chapter, source, now)
    ensures store.items == old(store.items) && store.searchResults == old(store.searchResults)
  {
    var loaded := ParsedOrEmpty(store.readingHistory);
    if loaded.None? {
      return;
    }
    var history := loaded.value;
    if NameDiffers(store.items, chapter.name) {
      return;
    }
    if manga.None? {
      return;
    }
    var entry := OverwriteEntry(mangaUrl, manga.value, chapter, source, now);
    var existingIndex := FindIndex(history, TitleIs(entry.title));
    if existingIndex != -1 {
      history := history[existingIndex := entry];
    } else {
      history := [entry] + history;
    }
    store.SetHistory(Take(history, Capacity));
  }

  /** The image request of the inline reader (lines 90-93): unlike the
      separate reader it strips every leading slash of the endpoint. */
  function ReaderImagesUrl(source: string, endpoint: string): string {
    ReadComicPage.ApiBase + source + "/" + StripSlashes(endpoint)
  }

  /** Any number of extra leading slashes on the endpoint asks for the same
      images. */
  lemma ReaderImagesUrlIgnoresSlashes(source: string, endpoint: string, k: nat)
    ensures ReaderImagesUrl(source, Slashes(k) + endpoint) == ReaderImagesUrl(source, endpoint)
  {
    StripSlashesOfSlashes(k, endpoint);
  }

  class IndexReader {
    const chapterList: seq<Chapter>
    var chapter: Chapter
    var currentChapterIndex: int
    var images: seq<string>
    var loading: bool

    ghost predicate Valid()
      reads this
    {
      -1 <= currentChapterIndex < |chapterList|
    }

    /** The initial state (lines 81-85). */
    constructor (chapter: Chapter, chapterList: seq<Chapter>)
      ensures Valid()
      ensures this.chapter == chapter && this.chapterList == chapterList
      ensures currentChapterIndex == InitialIndex(chapterList, chapter.endpoint)
      ensures images == [] && loading
    {
      this.chapter := chapter;
      this.chapterList := chapterList;
      currentChapterIndex := InitialIndex(chapterList, chapter.endpoint);
      images := [];
      loading := true;
    }

    /** `handlePreviousChapter` (lines 175-184): returns the chapter handed
        to `onBack`, if any. */
    method HandlePreviousChapter() returns (selected: Option<Chapter>)
      requires Valid()
      modifies this
      ensures Valid()
      ensures selected.Some? <==> PreviousIndex(old(currentChapterIndex)).Some?
      ensures selected.None? ==> currentChapterIndex == old(currentChapterIndex) && images == old(images)
      ensures selected.Some? ==>
                && currentChapterIndex == old(currentChapterIndex) - 1
                && selected.value == chapterList[currentChapterIndex]
                && images == []
      ensures loading == old(loading)
    {
      selected := None;
      if currentChapterIndex > 0 {
        var prevChapter := chapterList[currentChapterIndex - 1];
        images := [];
        currentChapterIndex := currentChapterIndex - 1;
        selected := Some(prevChapter);
      }
    }

    /** `handleNextChapter` (lines 186-195). */
    method HandleNextChapter() returns (selected: Option<Chapter>)
      requires Valid()
      modifies this
      ensures Valid()
      ensures selected.Some? <==> NextIndex(chapterList, old(currentChapterIndex)).Some?
      ensures selected.None? ==> currentChapterIndex == old(currentChapterIndex) && images == old(images)
      ensures selected.Some? ==>
                && currentChapterIndex == old(currentChapterIndex) + 1
                && selected.value == chapterList[currentChapterIndex]
                && images == []
      ensures loading == old(loading)
    {
      selected := None;
      if currentChapterIndex < |chapterList| - 1 {
        var nextChapter := chapterList[currentChapterIndex + 1];
        images := [];
        currentChapterIndex := currentChapterIndex + 1;
        selected := Some(nextChapter);
      }
    }

    /** A new `chapter` prop (the comic page re-renders the reader with the
        chapter handed to `onBack`, lines 330-332): the list position is
        state initialised once, so it is kept, as are the shown images until
        the effect keyed on `chapter` (line 123) fetches again. */
    method ChapterChanged(newChapter: Chapter)
      requires Valid()
      modifies this
      ensures Valid()
      ensures chapter == newChapter
      ensures currentChapterIndex == old(currentChapterIndex) && images == old(images) && loading == old(loading)
    {
      chapter := newChapter;
    }

    /** `fetchChapterImages` (lines 88-120), returning the request it makes
        for the current chapter.  On a good reply the images are shown and, when the stored name differs, `saveToHistory`
        is called, which returns at once on that same condition: the stored
        history is never written on this path. */
    method OnImagesFetched(store: LocalStorage, response: ReadComicPage.ImagesResponse, mangaInfoUrl: string,
                           manga: Option<ComicInfo>, source: string, now: int)
      returns (url: string)
      modifies this, store
      ensures url == ReaderImagesUrl(source, chapter.endpoint)
      ensures images == (if response.Replied? && response.status == 200 && response.data.Some?
                         then response.data.value else old(images))
      ensures !loading && currentChapterIndex == old(currentChapterIndex)
      ensures store.readingHistory == old(store.readingHistory)
      ensures store.items == old(store.items) && store.searchResults == old(store.searchResults)
    {
      loading := true;
      url := ReaderImagesUrl(source, chapter.endpoint);
      if response.Replied? && response.status == 200 && response.data.Some? {
        images := response.data.value;
        if NameDiffers(store.items, chapter.name) {
          SaveToHistory(store, mangaInfoUrl, manga, chapter, source, now);
        }
      }
      loading := false;
    }
  }

  // ---------------------------------------------------------------------------
  // The inline comic page: the save keyed by manga_url

  /** The stored history after the inline comic page's `saveToHistory`
      (lines 304-313); None when `JSON.parse` throws, which nothing catches. */
  function SavedByUrl(stored: Json<HistoryEntry>, manga: MangaItem, chapter: Chapter, source: string): (r: Option<seq<HistoryEntry>>)
    ensures r.None? <==> stored.Malformed?
    ensures r.Some? ==> |ParsedOrEmpty(stored).value| <= |r.value| <= |ParsedOrEmpty(stored).value| + 1
  {
    var loaded := ParsedOrEmpty(stored);
    if loaded.None? then None
    else Some(UpsertByUrl(loaded.value, manga, ChapterRef(chapter.name, chapter.endpoint), source))
  }

  class InfoScreen {
    const manga: MangaItem
    const source: string
    var selectedChapter: Option<Chapter>

    constructor (manga: MangaItem, source: string)
      ensures this.manga == manga && this.source == source && selectedChapter.None?
    {
      this.manga := manga;
      this.source := source;
      selectedChapter := None;
    }

    /** The inline `saveToHistory`; `thrown` when `JSON.parse` throws. */
    method SaveToHistory(store: LocalStorage, chapter: Chapter) returns (thrown: bool)
      modifies store
      ensures thrown <==> old(store.readingHistory).Malformed?
      ensures thrown ==> store.readingHistory == old(store.readingHistory)
      ensures !thrown ==> store.readingHistory == Parsed(SavedByUrl(old(store.readingHistory), manga, chapter, source).value)
      ensures store.items == old(store.items) && store.searchResults == old(store.searchResults)
    {
      var loaded := ParsedOrEmpty(store.readingHistory);
      if loaded.None? {
        return true;
      }
      var history := loaded.value;
      var mangaIndex := FindIndex(history, UrlIs(manga.mangaUrl));
      if mangaIndex != -1 {
        history := history[mangaIndex := history[mangaIndex].(
          lastReadChapter := ChapterRef(chapter.name, chapter.endpoint), source := source)];
      } else {
        history := history + [UrlRecord(manga, ChapterRef(chapter.name, chapter.endpoint), source)];
      }
      store.SetHistory(history);
      thrown := false;
    }

    /** The reader's `onBack` (lines 330-339): the chapter is selected before
        the save, so a save that throws still leaves it selected. */
    method OnBack(store: LocalStorage, chapter: Option<Chapter>) returns (thrown: bool)
      modifies this, store
      ensures selectedChapter == chapter
      ensures thrown <==> chapter.Some? && NameDiffers(old(store.items), chapter.value.name) &&
                          old(store.readingHistory).Malformed?
      ensures store.readingHistory ==
                if chapter.Some? && NameDiffers(old(store.items), chapter.value.name) && !thrown
                then Parsed(SavedByUrl(old(store.readingHistory), manga, chapter.value, source).value)
                else old(store.readingHistory)
      ensures store.items == old(store.items) && store.searchResults == old(store.searchResults)
    {
      thrown := false;
      if chapter.Some? {
        selectedChapter := chapter;
        if NameDiffers(store.items, chapter.value.name) {
          thrown := SaveToHistory(store, chapter.value);
        }
      } else {
        selectedChapter := None;
      }
    }
  }

  // ---------------------------------------------------------------------------
  // The inline history page

  class HistoryList {
    var history: seq<HistoryEntry>

    constructor ()
      ensures history == []
    {
      history := [];
    }

    /** The mount effect (lines 566-577). */
    method Mount(store: LocalStorage)
      modifies this
      ensures history == LoadedHistory(store.readingHistory)
    {
      history := LoadedHistory(store.readingHistory);
    }
  }
}
