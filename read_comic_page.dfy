/**
 * src/components/ReadComicPage.js: the chapter reader used by
 * ComicInfoPage.js.  Previous/next chapters are found by an ordinal read from
 * the chapter NAME, not by list position; every chapter change is saved to
 * the reading history with the keep-identity policy.
 */
module ReadComicPage {
  import opened Wrappers
  import opened Text
  import opened History
  import opened Storage

  const ApiBase := "https://id-comic-api.vercel.app/api/"

  // ---------------------------------------------------------------------------
  // Chapter ordinals

  /** `parseInt(name.replace(/[^0-9]/g, ''), 10)`: the number spelled by ALL
      the ASCII digits of the name once every other character is removed;
      None stands for NaN, which is what a name without digits gives. */
  function Ordinal(name: string): (r: Option<nat>)
    ensures r.None? <==> forall i :: 0 <= i < |name| ==> !IsDigit(name[i])
  {
    var d := Digits(name);
    if d == "" then None else Some(DecimalValue(d))
  }

  /** Every run of digits in a name counts: a label, a run of digits, a
      separator and a second run read as the two runs written together (whose
      value Text.DecimalValueConcat gives). */
  lemma OrdinalJoinsDigitRuns(tag: string, a: string, sep: string, b: string)
    requires forall i :: 0 <= i < |tag| ==> !IsDigit(tag[i])
    requires forall i :: 0 <= i < |sep| ==> !IsDigit(sep[i])
    requires forall i :: 0 <= i < |a| ==> IsDigit(a[i])
    requires forall i :: 0 <= i < |b| ==> IsDigit(b[i])
    requires a + b != ""
    ensures forall i :: 0 <= i < |a + b| ==> IsDigit((a + b)[i])
    ensures Ordinal(tag + a + sep + b) == Some(DecimalValue(a + b))
  {
    DigitsOfTwoRuns(tag, a, sep, b);
    AllDigitsOfConcat(a, b);
    OrdinalOfDigits(tag + a + sep + b, a + b);
  }

  /** A name whose digits are `d` has the ordinal `d` spells. */
  lemma OrdinalOfDigits(name: string, d: string)
    requires forall i :: 0 <= i < |d| ==> IsDigit(d[i])
    requires d != "" && Digits(name) == d
    ensures Ordinal(name) == Some(DecimalValue(d))
  {
  }

  /** "Chapter 12.5" reads as 125, not 12. */
  lemma OrdinalOfDecimalName()
    ensures Ordinal("Chapter 12.5") == Some(125)
  {
    assert "Chapter " + "12" + "." + "5" == "Chapter 12.5";
    OrdinalJoinsDigitRuns("Chapter ", "12", ".", "5");
    assert "12" + "5" == "125";
    assert DecimalValue("125") == 125 by {
      assert "125"[..2] == "12" && "12"[..1] == "1" && "1"[..0] == "";
    }
  }

  /** A name without digits has no ordinal. */
  lemma OrdinalOfWordName()
    ensures Ordinal("Extra") == None
  {
  }

  /** A name made of a digit-free tag followed by a number has that number
      as its ordinal. */
  lemma OrdinalOfLabelledNumber(tag: string, n: nat)
    requires forall i :: 0 <= i < |tag| ==> !IsDigit(tag[i])
    ensures Ordinal(tag + Decimal(n)) == Some(n)
  {
    DigitsOfConcat(tag, Decimal(n));
    NoDigits(tag);
    DigitsOfDigitString(Decimal(n));
    assert Digits(tag + Decimal(n)) == Decimal(n);
    DecimalRoundTrip(n);
  }

  /** The chapter's ordinal is `n`. */
  predicate HasOrdinal(c: Chapter, n: int) {
    Ordinal(c.name).Some? && Ordinal(c.name).value == n
  }

  /** `c => parseInt(...) === target`; a NaN target (None) matches nothing. */
  function OrdinalIs(target: Option<int>): Chapter -> bool {
    (c: Chapter) => target.Some? && HasOrdinal(c, target.value)
  }

  /** NaN-propagating `n + d`. */
  function Shift(n: Option<nat>, d: int): Option<int> {
    if n.None? then None else Some(n.value + d)
  }

  /** `list.find(c => ordinal(c) === target)`. */
  function FindByOrdinal(list: seq<Chapter>, target: Option<int>): (r: Option<Chapter>)
    ensures r.None? <==> forall i :: 0 <= i < |list| ==> !OrdinalIs(target)(list[i])
    ensures r.Some? ==> exists i :: 0 <= i < |list| && list[i] == r.value && OrdinalIs(target)(list[i])
                          && forall j :: 0 <= j < i ==> !OrdinalIs(target)(list[j])
  {
    var i := IndexWhere(list, OrdinalIs(target));
    if i == -1 then None else Some(list[i])
  }

  /** The chapter `handleNextChapter` moves to: nothing when the current name
      has no ordinal (the `isNaN` guard) or no chapter has ordinal cur+1;
      otherwise the first such chapter in list order.  The current chapter
      need not be in the list. */
  function NextChapter(current: Chapter, list: seq<Chapter>): (r: Option<Chapter>)
    ensures r.Some? <==> Ordinal(current.name).Some? &&
                         exists i :: 0 <= i < |list| && HasOrdinal(list[i], Ordinal(current.name).value + 1)
    ensures r.Some? ==> exists i :: 0 <= i < |list| && list[i] == r.value &&
                          HasOrdinal(list[i], Ordinal(current.name).value + 1) &&
                          forall j :: 0 <= j < i ==> !HasOrdinal(list[j], Ordinal(current.name).value + 1)
  {
    var cur := Ordinal(current.name);
    if cur.None? then None else FindByOrdinal(list, Some(cur.value + 1))
  }

  /** The chapter `handlePreviousChapter` moves to, with cur-1, behind the
      same `isNaN` guard. */
  function PreviousChapter(current: Chapter, list: seq<Chapter>): (r: Option<Chapter>)
    ensures r.Some? <==> Ordinal(current.name).Some? &&
                         exists i :: 0 <= i < |list| && HasOrdinal(list[i], Ordinal(current.name).value - 1)
    ensures r.Some? ==> exists i :: 0 <= i < |list| && list[i] == r.value &&
                          HasOrdinal(list[i], Ordinal(current.name).value - 1) &&
                          forall j :: 0 <= j < i ==> !HasOrdinal(list[j], Ordinal(current.name).value - 1)
  {
    var cur := Ordinal(current.name);
    if cur.None? then None else
      var target: int := cur.value - 1;
      FindByOrdinal(list, Some(target))
  }

  /** The Previous button's `disabled` expression: no chapter's ordinal equals
      the current ordinal minus one (NaN when the name has no digits). */
  predicate PreviousDisabled(current: Chapter, list: seq<Chapter>) {
    FindByOrdinal(list, Shift(Ordinal(current.name), -1)).None?
  }

  /** The Next button's `disabled` expression. */
  predicate NextDisabled(current: Chapter, list: seq<Chapter>) {
    FindByOrdinal(list, Shift(Ordinal(current.name), 1)).None?
  }

  /** Each button is disabled exactly when its handler would do nothing.
      The handlers test `isNaN` explicitly; the buttons rely on a NaN target
      never being equal to any ordinal, which gives the same answer. */
  lemma DisabledIffNoOp(current: Chapter, list: seq<Chapter>)
    ensures PreviousDisabled(current, list) <==> PreviousChapter(current, list).None?
    ensures NextDisabled(current, list) <==> NextChapter(current, list).None?
    ensures Ordinal(current.name).None? ==> PreviousDisabled(current, list) && NextDisabled(current, list)
  {
  }

  /** Chapters named "6", "7", "8": next from "7" is "8", previous is "6", and
      next from "8" finds nothing. */
  lemma AdjacencyScenario(e6: string, e7: string, e8: string)
    ensures var c6, c7, c8 := Chapter("6", e6, ""), Chapter("7", e7, ""), Chapter("8", e8, "");
      var list := [c8, c7, c6];
      && NextChapter(c7, list) == Some(c8)
      && PreviousChapter(c7, list) == Some(c6)
      && NextChapter(c8, list) == None
  {
    var c6, c7, c8 := Chapter("6", e6, ""), Chapter("7", e7, ""), Chapter("8", e8, "");
    var list := [c8, c7, c6];
    SingleDigitOrdinals();
    assert IndexWhere(list, OrdinalIs(Some(8))) == 0 by {
      assert OrdinalIs(Some(8))(list[0]);
    }
    assert IndexWhere(list, OrdinalIs(Some(6))) == 2 by {
      assert !OrdinalIs(Some(6))(list[0]) && !OrdinalIs(Some(6))(list[1]) && OrdinalIs(Some(6))(list[2]);
    }
    assert IndexWhere(list, OrdinalIs(Some(9))) == -1 by {
      assert forall i :: 0 <= i < 3 ==> !OrdinalIs(Some(9))(list[i]);
    }
  }

  lemma SingleDigitOrdinals()
    ensures Ordinal("6") == Some(6) && Ordinal("7") == Some(7) && Ordinal("8") == Some(8)
  {
    assert Digits("6") == "6" && Digits("7") == "7" && Digits("8") == "8";
  }

  // ---------------------------------------------------------------------------
  // The current index

  /** `findIndex(c => c.endpoint === endpoint)` with -1 replaced by 0. */
  function ResolveIndex(list: seq<Chapter>, endpoint: string): (r: nat)
    ensures |list| > 0 ==> r < |list|
    ensures (exists i :: 0 <= i < |list| && list[i].endpoint == endpoint) ==>
              list[r].endpoint == endpoint && forall j :: 0 <= j < r ==> list[j].endpoint != endpoint
    ensures (forall i :: 0 <= i < |list| ==> list[i].endpoint != endpoint) ==> r == 0
  {
    var i := IndexWhere(list, EndpointIs(endpoint));
    if i == -1 then 0 else i
  }

  // ---------------------------------------------------------------------------
  // Saving to history

  /** The `historyEntry` built at lines 91-103. */
  function NewEntry(mangaUrl: string, manga: ComicInfo, chapter: Chapter, source: string, now: int): (e: HistoryEntry)
    ensures RemoveFirst(manga.title, "Komik ") == "" ==> e.title == "Unknown Title"
    ensures RemoveFirst(manga.title, "Komik ") != "" ==> e.title == RemoveFirst(manga.title, "Komik ")
    ensures chapter.name == "" ==> e.lastReadChapter.name == "Unknown Chapter"
    ensures chapter.name != "" ==> e.lastReadChapter.name == chapter.name
    ensures (chapter.endpoint == "" || chapter.endpoint[0] != '/') ==> e.lastReadChapter.endpoint == chapter.endpoint
    ensures |chapter.endpoint| > 0 && chapter.endpoint[0] == '/' ==> e.lastReadChapter.endpoint == chapter.endpoint[1..]
    ensures manga.thumbnail == "" ==> e.cover == "Unknown Thumbnail" && e.thumbnail == chapter.thumbnail
    ensures manga.thumbnail != "" ==> e.cover == manga.thumbnail && e.thumbnail == manga.thumbnail
    ensures e.mangaUrl == mangaUrl && e.source == source && e.lastReadAt == Some(now) && e.isFromHistory
  {
    HistoryEntry(
      HistoryTitle(manga.title),
      Or(mangaUrl, ""),
      ChapterRef(ChapterName(chapter.name), StripOneSlash(chapter.endpoint)),
      source,
      Or(manga.thumbnail, "Unknown Thumbnail"),
      Or(manga.thumbnail, chapter.thumbnail),
      Some(now),
      true)
  }

  /** The stored history after `saveToHistory`: unchanged when `JSON.parse`
      throws or `manga` is missing (both are caught); otherwise the
      keep-identity upsert of the new record. */
  function SavedHistory(stored: Json<HistoryEntry>, mangaUrl: string, manga: Option<ComicInfo>,
                        chapter: Chapter, source: string, now: int): (r: Json<HistoryEntry>)
    ensures stored.Malformed? || manga.None? ==> r == stored
    ensures !stored.Malformed? && manga.Some? ==> r.Parsed? && |r.items| <= Capacity
  {
    var loaded := ParsedOrEmpty(stored);
    if loaded.None? || manga.None? then stored
    else Parsed(UpsertKeepIdentity(loaded.value, NewEntry(mangaUrl, manga.value, chapter, source, now)))
  }

  /** After a save of a title that is absent or stored among the first 50
      records, the comic's title is stored, with the chapter just opened (one
      leading slash stripped from its endpoint) and the time of the save. */
  lemma SaveRecordsChapter(h: seq<HistoryEntry>, mangaUrl: string, manga: ComicInfo,
                           chapter: Chapter, source: string, now: int)
    requires IndexOfTitle(h, HistoryTitle(manga.title)) < Capacity
    ensures var r := SavedHistory(Parsed(h), mangaUrl, Some(manga), chapter, source, now);
      var k := IndexOfTitle(r.items, HistoryTitle(manga.title));
      && r.Parsed? && 0 <= k < |r.items|
      && r.items[k].lastReadChapter == ChapterRef(ChapterName(chapter.name), StripOneSlash(chapter.endpoint))
      && r.items[k].lastReadAt == Some(now)
  {
    KeepIdentityRecords(h, NewEntry(mangaUrl, manga, chapter, source, now));
  }

  /** The example of a repeated save: the second save of "Solo Leveling" with
      another `manga_url` keeps one record, keeps the first `manga_url`, and
      records the new chapter. */
  lemma RepeatedSaveScenario(thumb: string, source: string)
    ensures var manga := ComicInfo("Solo Leveling", thumb, None);
      var s1 := SavedHistory(Missing, "/m/solo", Some(manga), Chapter("10", "/ch/10", ""), source, 1);
      var s2 := SavedHistory(s1, "/m/DIFFERENT", Some(manga), Chapter("11", "/ch/11", ""), source, 2);
      && s1.Parsed? && |s1.items| == 1 && s1.items[0].lastReadChapter.endpoint == "ch/10"
      && s2.Parsed? && |s2.items| == 1
      && s2.items[0].title == "Solo Leveling"
      && s2.items[0].mangaUrl == "/m/solo"
      && s2.items[0].lastReadChapter.endpoint == "ch/11"
  {
    LacksFirstChar("Solo Leveling", "Komik ");
    assert HistoryTitle("Solo Leveling") == "Solo Leveling";
    assert StripOneSlash("/ch/10") == "ch/10" && StripOneSlash("/ch/11") == "ch/11";
  }

  /** `saveToHistory` (lines 85-125), on the stored history. */
  method SaveToHistory(store: LocalStorage, mangaUrl: string, manga: Option<ComicInfo>,
                       chapter: Chapter, source: string, now: int)
    modifies store
    ensures store.readingHistory == SavedHistory(old(store.readingHistory), mangaUrl, manga, chapter, source, now)
    ensures store.items == old(store.items) && store.searchResults == old(store.searchResults)
  {
    var loaded := ParsedOrEmpty(store.readingHistory);
    if loaded.None? || manga.None? {
      return;
    }
    var history := loaded.value;
    var entry := NewEntry(mangaUrl, manga.value, chapter, source, now);
    var existingIndex := FindIndex(history, TitleIs(entry.title));
    if existingIndex != -1 {
      history := history[existingIndex := history[existingIndex].(
        lastReadChapter := entry.lastReadChapter, lastReadAt := entry.lastReadAt)];
    } else {
      history := [entry] + history;
    }
    store.SetHistory(Take(history, Capacity));
  }

  // ---------------------------------------------------------------------------
  // Cloud backup decision (lines 23-43)

  /** What `isChapterInFirebase` gave: an answer, or a failure.  The
      googleAuth.js shown does not export that function, so as the source
      stands the call always fails. */
  datatype ExistenceCheck = Answered(inBackup: bool) | CheckFailed

  /** The history `backupHistory` sends to the backup store, if any: only for
      a signed-in user whose chapter is not yet backed up, and only when the
      stored history parses.  Local history is never written. */
  function BackupPayload(signedIn: bool, check: ExistenceCheck, stored: Json<HistoryEntry>): (r: Option<seq<HistoryEntry>>)
    ensures r.Some? <==> signedIn && check == Answered(false) && !stored.Malformed?
    ensures r.Some? ==> r == ParsedOrEmpty(stored)
  {
    if signedIn && check == Answered(false) then ParsedOrEmpty(stored) else None
  }

  // ---------------------------------------------------------------------------
  // The reader's state

  /** An image response: the fetch threw, or a reply with its `status` and its
      `data` (None when it is not an array). */
  datatype ImagesResponse = FetchFailed | Replied(status: int, data: Option<seq<string>>)

  /** The request URL of lines 60-61. */
  function ImagesUrl(source: string, endpoint: string): (r: string)
    ensures |endpoint| > 0 && endpoint[0] == '/' ==> r == ApiBase + source + "/" + endpoint[1..]
    ensures (endpoint == "" || endpoint[0] != '/') ==> r == ApiBase + source + "/" + endpoint
  {
    ApiBase + source + "/" + StripOneSlash(endpoint)
  }

  /** One leading slash of the endpoint never reaches the request, a second
      one does. */
  lemma ImagesUrlStripsOneSlash(source: string, x: string)
    ensures (x == "" || x[0] != '/') ==> ImagesUrl(source, "/" + x) == ImagesUrl(source, x)
    ensures ImagesUrl(source, "//" + x) == ApiBase + source + "/" + "/" + x
  {
    StripOneSlashLeavesSecond(x);
  }

  class Session {
    var chapter: Chapter
    var localChapterList: seq<Chapter>
    var currentChapterIndex: nat
    var images: seq<string>
    var loading: bool

    ghost predicate Valid()
      reads this
    {
      |localChapterList| > 0 ==> currentChapterIndex < |localChapterList|
    }

    /** The initial state (lines 15-21). */
    constructor (chapter: Chapter, chapterList: seq<Chapter>)
      ensures Valid()
      ensures this.chapter == chapter && localChapterList == chapterList
      ensures currentChapterIndex == ResolveIndex(chapterList, chapter.endpoint)
      ensures images == [] && loading
    {
      this.chapter := chapter;
      localChapterList := chapterList;
      currentChapterIndex := ResolveIndex(chapterList, chapter.endpoint);
      images := [];
      loading := true;
    }

    /** Moves to the first chapter whose ordinal is `target`, if there is one
        (the common part of the two handlers). */
    method MoveTo(target: Option<int>) returns (selected: Option<Chapter>)
      requires Valid()
      modifies this
      ensures Valid()
      ensures selected == FindByOrdinal(localChapterList, target)
      ensures chapter == old(chapter) && localChapterList == old(localChapterList) && loading == old(loading)
      ensures selected.None? ==> images == old(images) && currentChapterIndex == old(currentChapterIndex)
      ensures selected.Some? ==>
                (images == [] &&
                 currentChapterIndex == IndexWhere(localChapterList, EndpointIs(selected.value.endpoint)))
    {
      var j := FindIndex(localChapterList, OrdinalIs(target));
      if j == -1 {
        return None;
      }
      var found := localChapterList[j];
      images := [];
      assert EndpointIs(found.endpoint)(localChapterList[j]);
      var i := FindIndex(localChapterList, EndpointIs(found.endpoint));
      currentChapterIndex := i;
      selected := Some(found);
    }

    /** `handleNextChapter`: returns the chapter handed to `onBack`, if any. */
    method HandleNextChapter() returns (selected: Option<Chapter>)
      requires Valid()
      modifies this
      ensures Valid()
      ensures selected == NextChapter(chapter, localChapterList)
      ensures chapter == old(chapter) && localChapterList == old(localChapterList) && loading == old(loading)
      ensures selected.None? ==> images == old(images) && currentChapterIndex == old(currentChapterIndex)
      ensures selected.Some? ==>
                (images == [] &&
                 currentChapterIndex == IndexWhere(localChapterList, EndpointIs(selected.value.endpoint)))
    {
      var cur := Ordinal(chapter.name);
      if cur.None? {
        return None;
      }
      selected := MoveTo(Some(cur.value + 1));
    }

    /** `handlePreviousChapter`. */
    method HandlePreviousChapter() returns (selected: Option<Chapter>)
      requires Valid()
      modifies this
      ensures Valid()
      ensures selected == PreviousChapter(chapter, localChapterList)
      ensures chapter == old(chapter) && localChapterList == old(localChapterList) && loading == old(loading)
      ensures selected.None? ==> images == old(images) && currentChapterIndex == old(currentChapterIndex)
      ensures selected.Some? ==>
                (images == [] &&
                 currentChapterIndex == IndexWhere(localChapterList, EndpointIs(selected.value.endpoint)))
    {
      var cur := Ordinal(chapter.name);
      if cur.None? {
        return None;
      }
      var target := cur.value as int - 1;
      selected := MoveTo(Some(target));
    }

    /** A new `chapterList` prop (lines 52-54, then 45-50). */
    method ChapterListChanged(chapterList: seq<Chapter>)
      modifies this
      ensures Valid()
      ensures localChapterList == chapterList
      ensures currentChapterIndex == ResolveIndex(chapterList, chapter.endpoint)
      ensures chapter == old(chapter) && images == old(images) && loading == old(loading)
    {
      localChapterList := chapterList;
      var i := FindIndex(localChapterList, EndpointIs(chapter.endpoint));
      currentChapterIndex := if i == -1 then 0 else i;
    }

    /** A new `chapter` prop: the index effect (lines 45-50), the image fetch
        (lines 56-76: the request it makes is returned, its response is an
        input) and the history save (lines
        78-83).  The save does not depend on the fetch's outcome. */
    method OpenChapter(store: LocalStorage, newChapter: Chapter, mangaInfoUrl: string,
                       manga: Option<ComicInfo>, source: string, now: int, response: ImagesResponse)
      returns (url: string)
      modifies this, store
      ensures Valid()
      ensures url == ImagesUrl(source, newChapter.endpoint)
      ensures chapter == newChapter && localChapterList == old(localChapterList)
      ensures currentChapterIndex == ResolveIndex(localChapterList, newChapter.endpoint)
      ensures images == (if response.Replied? && response.status == 200 && response.data.Some?
                         then response.data.value else old(images))
      ensures !loading
      ensures store.readingHistory ==
                SavedHistory(old(store.readingHistory), mangaInfoUrl, manga, newChapter, source, now)
      ensures store.items == old(store.items) && store.searchResults == old(store.searchResults)
    {
      chapter := newChapter;
      var i := FindIndex(localChapterList, EndpointIs(chapter.endpoint));
      currentChapterIndex := if i == -1 then 0 else i;
      loading := true;
      url := ImagesUrl(source, chapter.endpoint);
      if response.Replied? && response.status == 200 && response.data.Some? {
        images := response.data.value;
      }
      loading := false;
      SaveToHistory(store, mangaInfoUrl, manga, newChapter, source, now);
    }
  }
}
