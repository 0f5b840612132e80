/**
 * src/utils/searchUtils.js: the last search, kept in localStorage so that the
 * search page can be restored, and its removal.
 */
module SearchUtils {
  import opened Wrappers
  import opened Text
  import opened History
  import opened Storage

  const LastSearchQueryKey := "lastSearchQuery"
  const SearchSourceKey := "searchSource"
  const ComicTypeKey := "comicType"

  const DefaultSource := "Komiku"
  const DefaultType := "Manga"

  /** The object `getStoredSearchResults` returns. */
  datatype StoredSearch = StoredSearch(results: seq<MangaItem>, lastQuery: string, searchSource: string, comicType: string)

  /** What a store with none of the search items holds. */
  const Defaults := StoredSearch([], "", DefaultSource, DefaultType)

  /** An item as `getItem(key) || fallback` reads it: absent (`null`) and
      the empty string both give the fallback. */
  function ItemOr(items: map<string, string>, key: string, fallback: string): (r: string)
    ensures key !in items ==> r == fallback
    ensures key in items && items[key] != "" ==> r == items[key]
    ensures key in items && items[key] == "" ==> r == fallback
  {
    if key in items then Or(items[key], fallback) else fallback
  }

  /** `getStoredSearchResults` on the store's contents; None when the stored
      results do not parse (`JSON.parse` throws). */
  function Read(items: map<string, string>, results: Json<MangaItem>): (r: Option<StoredSearch>)
    ensures r.None? <==> results.Malformed?
    ensures r.Some? ==> r.value.results == ParsedOrEmpty(results).value
    ensures r.Some? ==> r.value.lastQuery == ItemOr(items, LastSearchQueryKey, "")
    ensures r.Some? ==> r.value.searchSource == ItemOr(items, SearchSourceKey, DefaultSource)
    ensures r.Some? ==> r.value.comicType == ItemOr(items, ComicTypeKey, DefaultType)
    ensures r.Some? ==> r.value.searchSource != "" && r.value.comicType != ""
  {
    match ParsedOrEmpty(results)
    case None => None
    case Some(rs) =>
      Some(StoredSearch(
        rs,
        ItemOr(items, LastSearchQueryKey, ""),
        ItemOr(items, SearchSourceKey, DefaultSource),
        ItemOr(items, ComicTypeKey, DefaultType)))
  }

  /** The plain items `clearSearchResults` leaves. */
  function Cleared(items: map<string, string>): (r: map<string, string>)
    ensures LastSearchQueryKey !in r && SearchSourceKey !in r && ComicTypeKey !in r
    ensures forall k :: k in items && k != LastSearchQueryKey && k != SearchSourceKey && k != ComicTypeKey ==>
              k in r && r[k] == items[k]
    ensures forall k :: k in r ==> k in items
  {
    items - {LastSearchQueryKey, SearchSourceKey, ComicTypeKey}
  }

  /** With no search item stored, the read gives the defaults. */
  lemma EmptyStoreGivesDefaults()
    ensures Read(map[], Missing) == Some(Defaults)
  {
  }

  /** A clear followed by a read gives exactly the defaults, whatever was
      stored before. */
  lemma ClearThenReadGivesDefaults(items: map<string, string>)
    ensures Read(Cleared(items), Missing) == Some(Defaults)
  {
    var c := Cleared(items);
    assert LastSearchQueryKey !in c && SearchSourceKey !in c && ComicTypeKey !in c;
  }

  /** `clearSearchResults` (lines 2-8): removes the four search items, keeps
      everything else, and returns true. */
  method ClearSearchResults(store: LocalStorage) returns (ok: bool)
    modifies store
    ensures ok
    ensures store.searchResults == Missing && store.items == Cleared(old(store.items))
    ensures store.readingHistory == old(store.readingHistory)
  {
    store.RemoveSearchResults();
    store.RemoveItem(LastSearchQueryKey);
    store.RemoveItem(SearchSourceKey);
    store.RemoveItem(ComicTypeKey);
    ok := true;
  }

  /** `getStoredSearchResults` (lines 10-21); it only reads the store. */
  function GetStoredSearchResults(store: LocalStorage): (r: Option<StoredSearch>)
    reads store
    ensures r.None? <==> store.searchResults.Malformed?
    ensures r.Some? ==> r.value.results == ParsedOrEmpty(store.searchResults).value
    ensures r.Some? ==> r.value.lastQuery == ItemOr(store.items, LastSearchQueryKey, "")
    ensures r.Some? ==> r.value.searchSource == ItemOr(store.items, SearchSourceKey, DefaultSource)
    ensures r.Some? ==> r.value.comicType == ItemOr(store.items, ComicTypeKey, DefaultType)
  {
    Read(store.items, store.searchResults)
  }
}
