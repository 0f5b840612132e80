/**
 * The reading-history records the screens store, and the policies by which
 * the screens insert into the history list.  The list is JavaScript's array
 * parsed from the `readingHistory` localStorage item; its first element is
 * shown first.
 *
 * Three policies exist in the source, and they differ:
 *  - UpsertKeepIdentity (ReadComicPage.js and ComicInfoPage.js): keyed by
 *    title; an existing record gets only a new chapter and timestamp; a new
 *    record is put in front; the list is cut to its first 50 positions.
 *  - UpsertOverwrite (the reader inside Layout.js): keyed by title; an
 *    existing record takes every field of the new one; otherwise as above.
 *  - UpsertByUrl (the comic page inside Layout.js): keyed by `manga_url`; an
 *    existing record gets a new chapter and source; a new record is appended
 *    at the END; nothing is ever cut.
 */
module History {
  import opened Wrappers
  import opened Text

  /** The `slice(0, 50)` bound. */
  const Capacity: nat := 50

  /** `{ name, endpoint }` as stored in `lastReadChapter`. */
  datatype ChapterRef = ChapterRef(name: string, endpoint: string)

  /** A chapter object of a comic's `chapter_list`, or the record a screen
      passes as the chapter to read (`thumbnail` is "" when absent). */
  datatype Chapter = Chapter(name: string, endpoint: string, thumbnail: string)

  /** The `data` of a comic-info response. */
  datatype ComicInfo = ComicInfo(title: string, thumbnail: string, chapterList: Option<seq<Chapter>>)

  /** A comic-info response: the fetch threw, or it answered with `data`
      (None when `data.data` is missing). */
  datatype InfoResponse = InfoFailed | InfoReplied(data: Option<ComicInfo>)

  /** The object the screens pass around as "the selected manga": a search
      result, or a resume record built from a history entry. */
  datatype MangaItem = MangaItem(
    title: string,
    mangaUrl: string,
    name: string,
    endpoint: string,
    thumbnail: string,
    isFromHistory: bool,
    mangaInfo: Option<ComicInfo>,
    chapterList: Option<seq<Chapter>>)

  /** One record of the reading history.  `cover` is "" and `lastReadAt` is
      None for a record that was stored without them; `isFromHistory` is false
      when the property is absent. */
  datatype HistoryEntry = HistoryEntry(
    title: string,
    mangaUrl: string,
    lastReadChapter: ChapterRef,
    source: string,
    cover: string,
    thumbnail: string,
    lastReadAt: Option<int>,
    isFromHistory: bool)

  /** `title.replace("Komik ", "") || 'Unknown Title'`. */
  function HistoryTitle(raw: string): (r: string)
    ensures r != ""
    ensures !Contains(raw, "Komik ") && raw != "" ==> r == raw
    ensures RemoveFirst(raw, "Komik ") != "" ==> r == RemoveFirst(raw, "Komik ")
    ensures RemoveFirst(raw, "Komik ") == "" ==> r == "Unknown Title"
  {
    Or(RemoveFirst(raw, "Komik "), "Unknown Title")
  }

  /** `chapter.name || 'Unknown Chapter'`. */
  function ChapterName(name: string): (r: string)
    ensures r != ""
    ensures name != "" ==> r == name
  {
    Or(name, "Unknown Chapter")
  }

  /** `arr.slice(0, n)`. */
  function Take<T>(s: seq<T>, n: nat): (r: seq<T>)
    ensures |r| == if |s| <= n then |s| else n
    ensures r == s[..|r|]
  {
    if |s| <= n then s else s[..n]
  }

  // ---------------------------------------------------------------------------
  // Array.prototype.findIndex

  /** The first index whose element satisfies `p`, or -1. */
  function IndexWhere<T>(s: seq<T>, p: T -> bool): (r: int)
    ensures -1 <= r < |s|
    ensures r == -1 <==> forall i :: 0 <= i < |s| ==> !p(s[i])
    ensures r != -1 ==> p(s[r]) && forall i :: 0 <= i < r ==> !p(s[i])
  {
    if s == [] then -1
    else if p(s[0]) then 0
    else
      var k := IndexWhere(s[1..], p);
      if k == -1 then -1 else k + 1
  }

  /** `s.findIndex(p)`, scanning from the front. */
  method FindIndex<T>(s: seq<T>, p: T -> bool) returns (r: int)
    ensures r == IndexWhere(s, p)
  {
    r := 0;
    while r < |s|
      invariant 0 <= r <= |s|
      invariant forall i :: 0 <= i < r ==> !p(s[i])
    {
      if p(s[r]) {
        return;
      }
      r := r + 1;
    }
    r := -1;
  }

  function TitleIs(t: string): HistoryEntry -> bool {
    (e: HistoryEntry) => e.title == t
  }

  function UrlIs(u: string): HistoryEntry -> bool {
    (e: HistoryEntry) => e.mangaUrl == u
  }

  function EndpointIs(ep: string): Chapter -> bool {
    (c: Chapter) => c.endpoint == ep
  }

  function IndexOfTitle(h: seq<HistoryEntry>, t: string): int {
    IndexWhere(h, TitleIs(t))
  }

  function IndexOfUrl(h: seq<HistoryEntry>, u: string): int {
    IndexWhere(h, UrlIs(u))
  }

  /** At most one record per title. */
  ghost predicate UniqueTitles(h: seq<HistoryEntry>) {
    forall i, j :: 0 <= i < j < |h| ==> h[i].title != h[j].title
  }

  /** At most one record per `manga_url`. */
  ghost predicate UniqueUrls(h: seq<HistoryEntry>) {
    forall i, j :: 0 <= i < j < |h| ==> h[i].mangaUrl != h[j].mangaUrl
  }

  /** The fields a save of the first two policies must not touch. */
  predicate SameIdentity(a: HistoryEntry, b: HistoryEntry) {
    a.title == b.title && a.mangaUrl == b.mangaUrl && a.source == b.source &&
    a.cover == b.cover && a.thumbnail == b.thumbnail && a.isFromHistory == b.isFromHistory
  }

  // ---------------------------------------------------------------------------
  // Policy 1: title-keyed, keep the stored identity, insert in front, cut to 50

  function UpsertKeepIdentity(h: seq<HistoryEntry>, e: HistoryEntry): (r: seq<HistoryEntry>)
    ensures |r| <= Capacity
  {
    var i := IndexOfTitle(h, e.title);
    var updated :=
      if i != -1 then h[i := h[i].(lastReadChapter := e.lastReadChapter, lastReadAt := e.lastReadAt)]
      else [e] + h;
    Take(updated, Capacity)
  }

  /** Saving a title that is stored changes only that record's chapter and
      timestamp; every other position, and every other field, keeps its value. */
  lemma KeepIdentityUpdates(h: seq<HistoryEntry>, e: HistoryEntry)
    requires IndexOfTitle(h, e.title) != -1
    ensures var r := UpsertKeepIdentity(h, e);
      var i := IndexOfTitle(h, e.title);
      && |r| == (if |h| <= Capacity then |h| else Capacity)
      && (forall k :: 0 <= k < |r| && k != i ==> r[k] == h[k])
      && (i < |r| ==>
            && SameIdentity(r[i], h[i])
            && r[i].lastReadChapter == e.lastReadChapter
            && r[i].lastReadAt == e.lastReadAt)
  {
  }

  /** Saving a title that is not stored puts the new record at position 0 and
      shifts the rest back by one, dropping whatever falls past position 50. */
  lemma KeepIdentityInserts(h: seq<HistoryEntry>, e: HistoryEntry)
    requires IndexOfTitle(h, e.title) == -1
    ensures var r := UpsertKeepIdentity(h, e);
      && |r| == (if |h| + 1 <= Capacity then |h| + 1 else Capacity)
      && r[0] == e
      && forall k :: 1 <= k < |r| ==> r[k] == h[k - 1]
  {
  }

  /** Why the lemmas below ask for a title absent or among the first 50
      records: a title first stored at position 50 or later (the by-URL save
      appends without cutting, so such lists occur) is updated in place and
      then cut off by `slice(0, 50)`, so the save leaves the first 50 records
      as they were and the saved title nowhere in the result. */
  lemma KeepIdentityDropsLate(h: seq<HistoryEntry>, e: HistoryEntry)
    requires IndexOfTitle(h, e.title) >= Capacity
    ensures UpsertKeepIdentity(h, e) == h[..Capacity]
    ensures IndexOfTitle(UpsertKeepIdentity(h, e), e.title) == -1
  {
    var r := UpsertKeepIdentity(h, e);
    assert r == h[..Capacity];
    forall k | 0 <= k < |r| ensures !TitleIs(e.title)(r[k]) {
      assert r[k] == h[k];
    }
  }

  /** After a save of a title that is absent or stored among the first 50
      records, the first record with the title carries the saved chapter and
      timestamp (past position 50 see KeepIdentityDropsLate). */
  lemma KeepIdentityRecords(h: seq<HistoryEntry>, e: HistoryEntry)
    requires IndexOfTitle(h, e.title) < Capacity
    ensures var r := UpsertKeepIdentity(h, e);
      var k := IndexOfTitle(r, e.title);
      && 0 <= k < |r|
      && r[k].lastReadChapter == e.lastReadChapter
      && r[k].lastReadAt == e.lastReadAt
  {
    var r := UpsertKeepIdentity(h, e);
    var j := IndexOfTitle(h, e.title);
    if j == -1 {
      KeepIdentityInserts(h, e);
      assert TitleIs(e.title)(r[0]);
    } else {
      KeepIdentityUpdates(h, e);
      assert TitleIs(e.title)(r[j]);
      forall k | 0 <= k < j ensures !TitleIs(e.title)(r[k]) {
        assert r[k] == h[k];
      }
    }
  }

  /** Titles that are unique before a save are unique after it. */
  lemma KeepIdentityUnique(h: seq<HistoryEntry>, e: HistoryEntry)
    requires UniqueTitles(h)
    ensures UniqueTitles(UpsertKeepIdentity(h, e))
  {
    var i := IndexOfTitle(h, e.title);
    var updated :=
      if i != -1 then h[i := h[i].(lastReadChapter := e.lastReadChapter, lastReadAt := e.lastReadAt)]
      else [e] + h;
    assert UniqueTitles(updated) by {
      if i == -1 {
        forall a, b | 0 <= a < b < |updated| ensures updated[a].title != updated[b].title {
          if a == 0 {
            assert updated[b] == h[b - 1];
          } else {
            assert updated[a] == h[a - 1] && updated[b] == h[b - 1];
          }
        }
      }
    }
    UniqueTake(updated, Capacity);
  }

  lemma UniqueTake(h: seq<HistoryEntry>, n: nat)
    requires UniqueTitles(h)
    ensures UniqueTitles(Take(h, n))
  {
  }

  /** Saving the same record twice, the second time with another timestamp,
      leaves the list of the first save with only that record's `lastReadAt`
      changed, and one record with the title.  (A matching record past
      position 50 would be cut away by the first save and inserted again by
      the second: KeepIdentityDropsLate.) */
  lemma KeepIdentityTwice(h: seq<HistoryEntry>, e: HistoryEntry, later: int)
    requires IndexOfTitle(h, e.title) < Capacity
    ensures var h1 := UpsertKeepIdentity(h, e);
      var h2 := UpsertKeepIdentity(h1, e.(lastReadAt := Some(later)));
      var i := IndexOfTitle(h1, e.title);
      && 0 <= i < |h1| == |h2|
      && h2 == h1[i := h1[i].(lastReadAt := Some(later))]
      && (UniqueTitles(h) ==> UniqueTitles(h2))
  {
    var h1 := UpsertKeepIdentity(h, e);
    var j := IndexOfTitle(h, e.title);
    if j == -1 {
      KeepIdentityInserts(h, e);
      assert TitleIs(e.title)(h1[0]);
    } else {
      KeepIdentityUpdates(h, e);
      assert TitleIs(e.title)(h1[j]);
    }
    var i := IndexOfTitle(h1, e.title);
    assert h1[i].lastReadChapter == e.lastReadChapter by {
      if j == -1 {
        assert i == 0;
      } else {
        assert i == j by {
          forall k | 0 <= k < j ensures !TitleIs(e.title)(h1[k]) {
            assert h1[k] == h[k];
          }
        }
      }
    }
    if UniqueTitles(h) {
      KeepIdentityUnique(h, e);
      KeepIdentityUnique(h1, e.(lastReadAt := Some(later)));
    }
  }

  /** The records of a sequence of saves, in order. */
  function SaveAll(h: seq<HistoryEntry>, es: seq<HistoryEntry>): seq<HistoryEntry>
    decreases |es|
  {
    if es == [] then h else SaveAll(UpsertKeepIdentity(h, es[0]), es[1..])
  }

  /** Once a title is stored, any number of further saves of that title keep
      its position and the identity it was first stored with, whatever
      `manga_url`, `source`, `cover` or `thumbnail` the later saves carry. */
  lemma {:induction false} KeepIdentityStable(h: seq<HistoryEntry>, es: seq<HistoryEntry>, t: string)
    requires |h| <= Capacity && IndexOfTitle(h, t) != -1
    requires forall k :: 0 <= k < |es| ==> es[k].title == t
    ensures var r := SaveAll(h, es);
      && |r| == |h|
      && IndexOfTitle(r, t) == IndexOfTitle(h, t)
      && SameIdentity(r[IndexOfTitle(h, t)], h[IndexOfTitle(h, t)])
    decreases |es|
  {
    if es != [] {
      KeepIdentityStep(h, es[0]);
      var h1 := UpsertKeepIdentity(h, es[0]);
      KeepIdentityStable(h1, es[1..], t);
    }
  }

  /** One save of a stored title keeps the length, the title's position and
      its identity. */
  lemma KeepIdentityStep(h: seq<HistoryEntry>, e: HistoryEntry)
    requires |h| <= Capacity && IndexOfTitle(h, e.title) != -1
    ensures var r := UpsertKeepIdentity(h, e);
      var i := IndexOfTitle(h, e.title);
      && |r| == |h|
      && IndexOfTitle(r, e.title) == i
      && SameIdentity(r[i], h[i])
  {
    var i := IndexOfTitle(h, e.title);
    var r := UpsertKeepIdentity(h, e);
    KeepIdentityUpdates(h, e);
    assert TitleIs(e.title)(r[i]);
    forall k | 0 <= k < i ensures !TitleIs(e.title)(r[k]) {
      assert r[k] == h[k];
    }
  }

  // ---------------------------------------------------------------------------
  // Policy 2: title-keyed, overwrite every field, insert in front, cut to 50

  function UpsertOverwrite(h: seq<HistoryEntry>, e: HistoryEntry): (r: seq<HistoryEntry>)
    ensures |r| <= Capacity
  {
    var i := IndexOfTitle(h, e.title);
    var updated := if i != -1 then h[i := e] else [e] + h;
    Take(updated, Capacity)
  }

  /** A stored title's record is replaced by the new record as a whole, so its
      `manga_url`, `source`, `cover` and `thumbnail` are overwritten too. */
  lemma OverwriteUpdates(h: seq<HistoryEntry>, e: HistoryEntry)
    requires IndexOfTitle(h, e.title) != -1
    ensures var r := UpsertOverwrite(h, e);
      var i := IndexOfTitle(h, e.title);
      && |r| == (if |h| <= Capacity then |h| else Capacity)
      && (forall k :: 0 <= k < |r| && k != i ==> r[k] == h[k])
      && (i < |r| ==> r[i] == e)
  {
  }

  lemma OverwriteInserts(h: seq<HistoryEntry>, e: HistoryEntry)
    requires IndexOfTitle(h, e.title) == -1
    ensures var r := UpsertOverwrite(h, e);
      && |r| == (if |h| + 1 <= Capacity then |h| + 1 else Capacity)
      && r[0] == e
      && forall k :: 1 <= k < |r| ==> r[k] == h[k - 1]
  {
  }

  lemma OverwriteUnique(h: seq<HistoryEntry>, e: HistoryEntry)
    requires UniqueTitles(h)
    ensures UniqueTitles(UpsertOverwrite(h, e))
  {
    var i := IndexOfTitle(h, e.title);
    var updated := if i != -1 then h[i := e] else [e] + h;
    assert UniqueTitles(updated) by {
      if i == -1 {
        forall a, b | 0 <= a < b < |updated| ensures updated[a].title != updated[b].title {
          if a == 0 {
            assert updated[b] == h[b - 1];
          } else {
            assert updated[a] == h[a - 1] && updated[b] == h[b - 1];
          }
        }
      }
    }
    UniqueTake(updated, Capacity);
  }

  // ---------------------------------------------------------------------------
  // Policy 3: keyed by manga_url, append at the end, never cut

  /** The record `push`ed for a comic not yet stored: it has no `cover`, no
      `lastReadAt` and no `isFromHistory`. */
  function UrlRecord(manga: MangaItem, chapter: ChapterRef, source: string): HistoryEntry {
    HistoryEntry(manga.title, manga.mangaUrl, chapter, source, "", manga.thumbnail, None, false)
  }

  function UpsertByUrl(h: seq<HistoryEntry>, manga: MangaItem, chapter: ChapterRef, source: string): (r: seq<HistoryEntry>)
    ensures |h| <= |r| <= |h| + 1
  {
    var i := IndexOfUrl(h, manga.mangaUrl);
    if i != -1 then h[i := h[i].(lastReadChapter := chapter, source := source)]
    else h + [UrlRecord(manga, chapter, source)]
  }

  /** A stored comic's record gets the new chapter and source and keeps its
      title, thumbnail, cover and timestamp; nothing else changes. */
  lemma ByUrlUpdates(h: seq<HistoryEntry>, manga: MangaItem, chapter: ChapterRef, source: string)
    requires IndexOfUrl(h, manga.mangaUrl) != -1
    ensures var r := UpsertByUrl(h, manga, chapter, source);
      var i := IndexOfUrl(h, manga.mangaUrl);
      && |r| == |h|
      && (forall k :: 0 <= k < |h| && k != i ==> r[k] == h[k])
      && r[i] == h[i].(lastReadChapter := chapter, source := source)
  {
  }

  /** A comic not yet stored is appended after every stored record. */
  lemma ByUrlAppends(h: seq<HistoryEntry>, manga: MangaItem, chapter: ChapterRef, source: string)
    requires IndexOfUrl(h, manga.mangaUrl) == -1
    ensures var r := UpsertByUrl(h, manga, chapter, source);
      && |r| == |h| + 1
      && r[..|h|] == h
      && r[|h|] == UrlRecord(manga, chapter, source)
  {
    assert (h + [UrlRecord(manga, chapter, source)])[..|h|] == h;
  }

  lemma ByUrlUnique(h: seq<HistoryEntry>, manga: MangaItem, chapter: ChapterRef, source: string)
    requires UniqueUrls(h)
    ensures UniqueUrls(UpsertByUrl(h, manga, chapter, source))
  {
  }

  // ---------------------------------------------------------------------------
  // Array.prototype.sort with (a, b) => new Date(b.lastReadAt) - new Date(a.lastReadAt)

  /** `b` sorts strictly before `a`: both have a timestamp and b's is later. */
  predicate Newer(b: HistoryEntry, a: HistoryEntry) {
    a.lastReadAt.Some? && b.lastReadAt.Some? && b.lastReadAt.value > a.lastReadAt.value
  }

  ghost predicate Timestamped(h: seq<HistoryEntry>) {
    forall i :: 0 <= i < |h| ==> h[i].lastReadAt.Some?
  }

  /** Non-increasing by `lastReadAt`: most recent first. */
  ghost predicate RecencyOrdered(h: seq<HistoryEntry>) {
    Timestamped(h) &&
    forall i, j :: 0 <= i < j < |h| ==> h[j].lastReadAt.value <= h[i].lastReadAt.value
  }

  /** Inserts `x` before the first element that is not newer than it. */
  function InsertByRecency(x: HistoryEntry, s: seq<HistoryEntry>): (r: seq<HistoryEntry>)
    ensures multiset(r) == multiset(s) + multiset{x}
    ensures |r| == |s| + 1
  {
    if s == [] then [x]
    else if !Newer(s[0], x) then [x] + s
    else
      assert s == [s[0]] + s[1..];
      [s[0]] + InsertByRecency(x, s[1..])
  }

  /** A stable insertion sort, most recent first.  The comparator of the
      source is consistent only when every record has a timestamp. */
  function SortByRecency(h: seq<HistoryEntry>): (r: seq<HistoryEntry>)
    ensures multiset(r) == multiset(h)
    ensures |r| == |h|
  {
    if h == [] then []
    else
      assert h == [h[0]] + h[1..];
      InsertByRecency(h[0], SortByRecency(h[1..]))
  }

  /** Every element of an insertion result is the inserted record or an
      element of the list it was inserted into. */
  lemma InsertMember(x: HistoryEntry, s: seq<HistoryEntry>, k: nat)
    requires k < |InsertByRecency(x, s)|
    ensures var e := InsertByRecency(x, s)[k];
      e == x || exists m :: 0 <= m < |s| && s[m] == e
  {
    var r := InsertByRecency(x, s);
    assert r[k] in multiset(r);
    if r[k] != x {
      assert r[k] in multiset(s);
    }
  }

  /** A record no older than any element of an ordered list can lead it. */
  lemma ConsOrdered(e: HistoryEntry, t: seq<HistoryEntry>)
    requires RecencyOrdered(t) && e.lastReadAt.Some?
    requires forall k :: 0 <= k < |t| ==> t[k].lastReadAt.value <= e.lastReadAt.value
    ensures RecencyOrdered([e] + t)
  {
    var r := [e] + t;
    forall i | 0 <= i < |r| ensures r[i].lastReadAt.Some? {
      if i > 0 { assert r[i] == t[i - 1]; }
    }
    forall i, j | 0 <= i < j < |r| ensures r[j].lastReadAt.value <= r[i].lastReadAt.value {
      assert r[j] == t[j - 1];
      if i > 0 { assert r[i] == t[i - 1]; }
    }
  }

  /** Inserting a timestamped record into a recency-ordered list keeps it
      ordered. */
  lemma {:induction false} InsertKeepsOrder(x: HistoryEntry, s: seq<HistoryEntry>)
    requires RecencyOrdered(s) && x.lastReadAt.Some?
    ensures RecencyOrdered(InsertByRecency(x, s))
    decreases |s|
  {
    if s == [] {
      ConsOrdered(x, []);
      assert [x] + [] == [x];
    } else if !Newer(s[0], x) {
      ConsOrdered(x, s);
    } else {
      var t := InsertByRecency(x, s[1..]);
      InsertKeepsOrder(x, s[1..]);
      forall k | 0 <= k < |t| ensures t[k].lastReadAt.value <= s[0].lastReadAt.value {
        InsertMember(x, s[1..], k);
        if t[k] != x {
          var m :| 0 <= m < |s[1..]| && s[1..][m] == t[k];
          assert s[m + 1] == t[k];
        }
      }
      ConsOrdered(s[0], t);
    }
  }

  /** When every record has a timestamp, the sorted list is most recent first. */
  lemma {:induction false} SortOrders(h: seq<HistoryEntry>)
    requires Timestamped(h)
    ensures RecencyOrdered(SortByRecency(h))
    decreases |h|
  {
    if h != [] {
      SortOrders(h[1..]);
      InsertKeepsOrder(h[0], SortByRecency(h[1..]));
    }
  }

  // ---------------------------------------------------------------------------
  // Resuming from a history record

  /** The record a history screen hands on to reopen the last chapter read:
      `{ ...lastReadChapter, title, thumbnail: cover || thumbnail,
      isFromHistory: true, endpoint: lastReadChapter.endpoint }`. */
  function ResumeRecord(item: HistoryEntry): (r: MangaItem)
    ensures r.title == item.title && r.isFromHistory
    ensures r.name == item.lastReadChapter.name && r.endpoint == item.lastReadChapter.endpoint
    ensures item.cover != "" ==> r.thumbnail == item.cover
    ensures item.cover == "" ==> r.thumbnail == item.thumbnail
  {
    MangaItem(item.title, "", item.lastReadChapter.name, item.lastReadChapter.endpoint,
              Or(item.cover, item.thumbnail), true, None, None)
  }
}

/**
 * The browser's localStorage as far as the screens use it.  Plain string
 * items live in `items`; the two items that hold JSON are kept parsed.
 */
module Storage {
  import opened Wrappers
  import opened History

  /** A JSON item: absent, present but not parseable, or a parsed array. */
  datatype Json<T> = Missing | Malformed | Parsed(items: seq<T>)

  /** `JSON.parse(localStorage.getItem(key)) || []`: an absent item reads as
      the empty list; None when `JSON.parse` throws. */
  function ParsedOrEmpty<T>(j: Json<T>): (r: Option<seq<T>>)
    ensures r.None? <==> j.Malformed?
    ensures j.Parsed? ==> r == Some(j.items)
    ensures j.Missing? ==> r == Some([])
  {
    match j
    case Missing => Some([])
    case Malformed => None
    case Parsed(s) => Some(s)
  }

  /** The item key that the chapter-save guards read; nothing in the source
      ever writes it. */
  const LastReadNameKey := "lastReadChapter.name"

  /** The keys of the two JSON items. */
  const HistoryKey := "readingHistory"
  const ResultsKey := "searchResults"

  /** The browser's `localStorage`.  The items under `HistoryKey` and
      `ResultsKey` live in `readingHistory` and `searchResults`; `items` holds
      every other item.  The modelled screens write only their own plain keys
      through `SetItem`, which keeps that split (`Valid`). */
  class LocalStorage {
    var items: map<string, string>
    var readingHistory: Json<HistoryEntry>
    var searchResults: Json<MangaItem>

    /** The JSON keys are not stored as plain items. */
    ghost predicate Valid()
      reads this
    {
      HistoryKey !in items && ResultsKey !in items
    }

    constructor (items: map<string, string>, readingHistory: Json<HistoryEntry>, searchResults: Json<MangaItem>)
      ensures this.items == items && this.readingHistory == readingHistory && this.searchResults == searchResults
    {
      this.items := items;
      this.readingHistory := readingHistory;
      this.searchResults := searchResults;
    }

    /** `localStorage.getItem(key)`; None stands for `null`. */
    function GetItem(key: string): (r: Option<string>)
      reads this
      ensures r.Some? <==> key in items
      ensures r.Some? ==> r.value == items[key]
    {
      if key in items then Some(items[key]) else None
    }

    method SetItem(key: string, value: string)
      modifies this
      ensures items == old(items)[key := value]
      ensures readingHistory == old(readingHistory) && searchResults == old(searchResults)
      ensures Valid() <==> old(Valid()) && key != HistoryKey && key != ResultsKey
    {
      items := items[key := value];
    }

    method RemoveItem(key: string)
      modifies this
      ensures items == old(items) - {key}
      ensures readingHistory == old(readingHistory) && searchResults == old(searchResults)
    {
      items := items - {key};
    }

    /** `localStorage.removeItem('searchResults')`. */
    method RemoveSearchResults()
      modifies this
      ensures searchResults == Missing
      ensures items == old(items) && readingHistory == old(readingHistory)
    {
      searchResults := Missing;
    }

    /** `localStorage.setItem('searchResults', JSON.stringify(r))`. */
    method SetSearchResults(r: seq<MangaItem>)
      modifies this
      ensures searchResults == Parsed(r)
      ensures items == old(items) && readingHistory == old(readingHistory)
    {
      searchResults := Parsed(r);
    }

    /** `localStorage.setItem('readingHistory', JSON.stringify(h))`. */
    method SetHistory(h: seq<HistoryEntry>)
      modifies this
      ensures readingHistory == Parsed(h)
      ensures items == old(items) && searchResults == old(searchResults)
    {
      readingHistory := Parsed(h);
    }
  }

  /** The guard the chapter saves evaluate: `JSON.parse(getItem(
      'lastReadChapter.name') !== chapter.name)`, i.e. the stored name is not
      the chapter's name (an absent item, `null`, is never equal to a name). */
  function NameDiffers(items: map<string, string>, name: string): (r: bool)
    ensures LastReadNameKey !in items ==> r
  {
    !(LastReadNameKey in items && items[LastReadNameKey] == name)
  }

  /** What the history screens show after loading: the stored list sorted
      most recent first, or the empty list when the stored text does not
      parse (the catch sets `[]`). */
  function LoadedHistory(stored: Json<HistoryEntry>): (r: seq<HistoryEntry>)
    ensures stored.Malformed? ==> r == []
    ensures stored.Missing? ==> r == []
    ensures stored.Parsed? ==> multiset(r) == multiset(stored.items) && |r| == |stored.items|
  {
    match stored
    case Parsed(h) => SortByRecency(h)
    case _ => []
  }

  /** A loaded list whose records all carry a timestamp is non-increasing by
      `lastReadAt`. */
  lemma LoadedHistoryOrdered(stored: Json<HistoryEntry>)
    requires stored.Parsed? ==> Timestamped(stored.items)
    ensures RecencyOrdered(LoadedHistory(stored))
  {
    if stored.Parsed? {
      SortOrders(stored.items);
    }
  }
}
