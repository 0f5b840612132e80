/**
 * src/components/ComicInfoPage.js: the page of one comic.  It fetches the
 * comic's info, offers its first, latest and listed chapters, and saves what
 * the reader opens with the keep-identity policy of History.
 */
module ComicInfoPage {
  import opened Wrappers
  import opened Text
  import opened History
  import opened Storage
  import ReadComicPage

  /** The request URL of line 27: the source of the last search (not the
      page's `source`), lower-cased, then the manga URL without its leading
      slashes. */
  function InfoUrl(searchSource: string, mangaUrl: string): string {
    ReadComicPage.ApiBase + ToLower(searchSource) + "/info/" + StripSlashes(mangaUrl)
  }

  /** The request does not depend on the case of the stored source nor on
      how many slashes lead the manga URL. */
  lemma InfoUrlNormalises(searchSource: string, mangaUrl: string, k: nat)
    ensures InfoUrl(ToLower(searchSource), mangaUrl) == InfoUrl(searchSource, mangaUrl)
    ensures InfoUrl(searchSource, Slashes(k) + mangaUrl) == InfoUrl(searchSource, mangaUrl)
  {
    ToLowerIdempotent(searchSource);
    StripSlashesOfSlashes(k, mangaUrl);
  }

  /** The `historyEntry` of lines 51-66, with its fallbacks for a missing
      comic info, an empty stripped title, a missing chapter name and a
      missing thumbnail. */
  function NewEntry(mangaUrl: string, comicInfo: Option<ComicInfo>, chapter: Chapter,
                    source: string, now: int): (e: HistoryEntry)
    ensures comicInfo.None? ==> e.title == "Unknown Title"
    ensures comicInfo.Some? && RemoveFirst(comicInfo.value.title, "Komik ") == "" ==> e.title == "Unknown Title"
    ensures comicInfo.Some? && RemoveFirst(comicInfo.value.title, "Komik ") != "" ==>
              e.title == RemoveFirst(comicInfo.value.title, "Komik ")
    ensures chapter.name == "" ==> e.lastReadChapter.name == "Unknown Chapter"
    ensures chapter.name != "" ==> e.lastReadChapter.name == chapter.name
    ensures e.lastReadChapter.endpoint == StripSlashes(chapter.endpoint)
    ensures comicInfo.None? || comicInfo.value.thumbnail == "" ==>
              e.cover == "Unknown Thumbnail" && e.thumbnail == chapter.thumbnail
    ensures comicInfo.Some? && comicInfo.value.thumbnail != "" ==>
              e.cover == comicInfo.value.thumbnail && e.thumbnail == comicInfo.value.thumbnail
    ensures e.mangaUrl == mangaUrl && e.source == source && e.lastReadAt == Some(now) && e.isFromHistory
  {
    var title := if comicInfo.None? then "Unknown Title" else HistoryTitle(comicInfo.value.title);
    var thumb := if comicInfo.None? then "" else comicInfo.value.thumbnail;
    HistoryEntry(
      title,
      Or(mangaUrl, ""),
      ChapterRef(ChapterName(chapter.name), StripSlashes(chapter.endpoint)),
      source,
      Or(thumb, "Unknown Thumbnail"),
      Or(thumb, chapter.thumbnail),
      Some(now),
      true)
  }

  /** The stored history after `saveToHistory`: unchanged only when the
      stored text does not parse; a missing comic info still saves, under
      'Unknown Title'. */
  function SavedHistory(stored: Json<HistoryEntry>, mangaUrl: string, comicInfo: Option<ComicInfo>,
                        chapter: Chapter, source: string, now: int): (r: Json<HistoryEntry>)
    ensures stored.Malformed? <==> r == stored && r.Malformed?
    ensures !stored.Malformed? ==> r.Parsed? && |r.items| <= Capacity
  {
    var loaded := ParsedOrEmpty(stored);
    if loaded.None? then stored
    else Parsed(UpsertKeepIdentity(loaded.value, NewEntry(mangaUrl, comicInfo, chapter, source, now)))
  }

  /** Saving a stored title: every other position is unchanged, and the
      record keeps its identity and takes the new chapter (all leading
      slashes stripped) and the time of the save. */
  lemma SaveExisting(h: seq<HistoryEntry>, mangaUrl: string, comicInfo: Option<ComicInfo>,
                     chapter: Chapter, source: string, now: int)
    requires IndexOfTitle(h, NewEntry(mangaUrl, comicInfo, chapter, source, now).title) != -1
    ensures var r := SavedHistory(Parsed(h), mangaUrl, comicInfo, chapter, source, now).items;
      var i := IndexOfTitle(h, NewEntry(mangaUrl, comicInfo, chapter, source, now).title);
      && |r| == (if |h| <= Capacity then |h| else Capacity)
      && (forall k :: 0 <= k < |r| && k != i ==> r[k] == h[k])
      && (i < |r| ==>
            && SameIdentity(r[i], h[i])
            && r[i].lastReadChapter == ChapterRef(ChapterName(chapter.name), StripSlashes(chapter.endpoint))
            && r[i].lastReadAt == Some(now))
  {
    KeepIdentityUpdates(h, NewEntry(mangaUrl, comicInfo, chapter, source, now));
  }

  /** Saving an absent title puts the new record first and cuts to 50. */
  lemma SaveAbsent(h: seq<HistoryEntry>, mangaUrl: string, comicInfo: Option<ComicInfo>,
                   chapter: Chapter, source: string, now: int)
    requires IndexOfTitle(h, NewEntry(mangaUrl, comicInfo, chapter, source, now).title) == -1
    ensures var r := SavedHistory(Parsed(h), mangaUrl, comicInfo, chapter, source, now).items;
      && |r| == (if |h| + 1 <= Capacity then |h| + 1 else Capacity)
      && r[0] == NewEntry(mangaUrl, comicInfo, chapter, source, now)
      && forall k :: 1 <= k < |r| ==> r[k] == h[k - 1]
  {
    KeepIdentityInserts(h, NewEntry(mangaUrl, comicInfo, chapter, source, now));
  }

  /** A save keeps stored titles unique. */
  lemma SaveKeepsTitlesUnique(stored: Json<HistoryEntry>, mangaUrl: string, comicInfo: Option<ComicInfo>,
                              chapter: Chapter, source: string, now: int)
    requires stored.Parsed? && UniqueTitles(stored.items)
    ensures UniqueTitles(SavedHistory(stored, mangaUrl, comicInfo, chapter, source, now).items)
  {
    KeepIdentityUnique(stored.items, NewEntry(mangaUrl, comicInfo, chapter, source, now));
  }

  /** The two pages strip a chapter endpoint differently: for "//x" this page
      stores "x" and the reader stores "/x". */
  lemma SlashHandlingDiffers(x: string, mangaUrl: string, manga: ComicInfo, chapter: Chapter,
                             source: string, now: int)
    requires chapter.endpoint == "//" + x && (x == "" || x[0] != '/')
    ensures NewEntry(mangaUrl, Some(manga), chapter, source, now).lastReadChapter.endpoint == x
    ensures ReadComicPage.NewEntry(mangaUrl, manga, chapter, source, now).lastReadChapter.endpoint == "/" + x
  {
    StripSlashesOfSlashes(2, x);
    assert Slashes(2) == "//";
    StripOneSlashLeavesSecond(x);
  }

  /** `saveToHistory` (lines 43-88), on the stored history. */
  method SaveToHistory(store: LocalStorage, mangaUrl: string, comicInfo: Option<ComicInfo>,
                       chapter: Chapter, source: string, now: int)
    modifies store
    ensures store.readingHistory == SavedHistory(old(store.readingHistory), mangaUrl, comicInfo, chapter, source, now)
    ensures store.items == old(store.items) && store.searchResults == old(store.searchResults)
  {
    var loaded := ParsedOrEmpty(store.readingHistory);
    if loaded.None? {
      return;
    }
    var history := loaded.value;
    var entry := NewEntry(mangaUrl, comicInfo, chapter, source, now);
    var existingIndex := FindIndex(history, TitleIs(entry.title));
    if existingIndex != -1 {
      history := history[existingIndex := history[existingIndex].(
        lastReadChapter := entry.lastReadChapter, lastReadAt := entry.lastReadAt)];
    } else {
      history := [entry] + history;
    }
    store.SetHistory(Take(history, Capacity));
  }

  /** The first chapter of a list given newest first, as the "Chapter 1"
      button picks it: the last element, nothing for an empty list. */
  function FirstChapter(list: seq<Chapter>): (r: Option<Chapter>)
    ensures r.None? <==> list == []
    ensures r.Some? ==> r.value == list[|list| - 1]
  {
    if list == [] then None else Some(list[|list| - 1])
  }

  /** The latest chapter as line 32 sets it: the first element. */
  function LatestChapter(list: seq<Chapter>): (r: Option<Chapter>)
    ensures r.None? <==> list == []
    ensures r.Some? ==> r.value == list[0]
  {
    if list == [] then None else Some(list[0])
  }

  /** A list of at least two chapters has different first and latest
      positions; with one chapter both buttons open it. */
  lemma FirstAndLatest(list: seq<Chapter>)
    ensures |list| == 1 ==> FirstChapter(list) == LatestChapter(list) == Some(list[0])
    ensures |list| >= 2 ==> FirstChapter(list) == Some(list[|list| - 1]) && LatestChapter(list) == Some(list[0])
  {
  }

  class InfoPage {
    const manga: MangaItem
    const source: string
    var comicInfo: Option<ComicInfo>
    var loading: bool
    var selectedChapter: Option<Chapter>
    var latestChapter: Option<Chapter>
    /** The `mangaURL` state; "" while it is null. */
    var mangaUrl: string

    /** The initial state (lines 7-16). */
    constructor (manga: MangaItem, source: string)
      ensures this.manga == manga && this.source == source
      ensures comicInfo.None? && loading && selectedChapter.None? && latestChapter.None? && mangaUrl == ""
    {
      this.manga := manga;
      this.source := source;
      comicInfo := None;
      loading := true;
      selectedChapter := None;
      latestChapter := None;
      mangaUrl := "";
    }

    /** The end of `fetchComicInfo` (lines 21-38).  A reply sets the comic
        info and the manga URL; the latest chapter is set only when the reply
        has a chapter list (reading it from a missing `data.data` or
        `chapter_list` throws, which the catch swallows).  `searchSource` is
        the stored search source read at line 19; the request made is
        returned. */
    method OnInfoFetched(searchSource: string, response: InfoResponse) returns (url: string)
      modifies this
      ensures url == InfoUrl(searchSource, manga.mangaUrl)
      ensures !loading && selectedChapter == old(selectedChapter)
      ensures response.InfoFailed? ==>
                comicInfo == old(comicInfo) && mangaUrl == old(mangaUrl) && latestChapter == old(latestChapter)
      ensures response.InfoReplied? ==> comicInfo == response.data && mangaUrl == manga.mangaUrl
      ensures response.InfoReplied? && response.data.Some? && response.data.value.chapterList.Some? ==>
                latestChapter == LatestChapter(response.data.value.chapterList.value)
      ensures response.InfoReplied? && (response.data.None? || response.data.value.chapterList.None?) ==>
                latestChapter == old(latestChapter)
    {
      url := InfoUrl(searchSource, manga.mangaUrl);
      if response.InfoReplied? {
        comicInfo := response.data;
        mangaUrl := manga.mangaUrl;
        if response.data.Some? && response.data.value.chapterList.Some? {
          latestChapter := LatestChapter(response.data.value.chapterList.value);
        }
      }
      loading := false;
    }

    /** The reader's `onBack` (lines 104-113): a chapter is selected and, when
        the stored `lastReadChapter.name` differs from its name, saved; no
        chapter clears the selection. */
    method OnBack(store: LocalStorage, chapter: Option<Chapter>, now: int)
      modifies this, store
      ensures selectedChapter == chapter
      ensures comicInfo == old(comicInfo) && latestChapter == old(latestChapter)
      ensures mangaUrl == old(mangaUrl) && loading == old(loading)
      ensures store.readingHistory ==
                if chapter.Some? && NameDiffers(old(store.items), chapter.value.name)
                then SavedHistory(old(store.readingHistory), mangaUrl, comicInfo, chapter.value, source, now)
                else old(store.readingHistory)
      ensures store.items == old(store.items) && store.searchResults == old(store.searchResults)
    {
      if chapter.Some? {
        selectedChapter := chapter;
        if NameDiffers(store.items, chapter.value.name) {
          SaveToHistory(store, mangaUrl, comicInfo, chapter.value, source, now);
        }
      } else {
        selectedChapter := None;
      }
    }

    /** The "Chapter 1" button (line 171).  Without comic info or a chapter
        list the handler throws and nothing changes. */
    method SelectFirstChapter()
      modifies this
      ensures comicInfo.Some? && comicInfo.value.chapterList.Some? ==>
                selectedChapter == FirstChapter(comicInfo.value.chapterList.value)
      ensures comicInfo.None? || comicInfo.value.chapterList.None? ==> selectedChapter == old(selectedChapter)
      ensures comicInfo == old(comicInfo) && latestChapter == old(latestChapter)
      ensures mangaUrl == old(mangaUrl) && loading == old(loading)
    {
      if comicInfo.Some? && comicInfo.value.chapterList.Some? {
        selectedChapter := FirstChapter(comicInfo.value.chapterList.value);
      }
    }

    /** The latest-chapter button (line 176). */
    method SelectLatestChapter()
      modifies this
      ensures selectedChapter == latestChapter
      ensures comicInfo == old(comicInfo) && latestChapter == old(latestChapter)
      ensures mangaUrl == old(mangaUrl) && loading == old(loading)
    {
      selectedChapter := latestChapter;
    }
  }
}
