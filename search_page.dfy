/**
 * src/components/SearchPage.js: the search screen.  A search commits the
 * chosen source and type and fetches page 1; scrolling to the end fetches the
 * next page while there is one.  Fetch replies are inputs.
 */
module SearchPage {
  import opened Wrappers
  import opened Text
  import opened History
  import opened Storage
  import opened SearchUtils
  import ReadComicPage

  /** `data.data` of a search reply: `max_page` (None when absent or null)
      and `results`. */
  datatype SearchData = SearchData(maxPage: Option<int>, results: seq<MangaItem>)

  /** A search response: the fetch threw, or a reply with `status` and `data`
      (None when `data.data` is absent). */
  datatype SearchResponse = SearchFailed | SearchReplied(status: int, data: Option<SearchData>)

  /** The request path after the API base (lines 78-81): page 1 has no
      page segment. */
  function SearchPath(source: string, comicType: string, page: int, query: string): string {
    if page == 1 then source + "/search/" + ToLower(comicType) + "/" + StripSlashes(query)
    else source + "/search/page/" + PageNumber(page) + "/" + ToLower(comicType) + "/" + StripSlashes(query)
  }

  /** `${page}` for the pages the screen requests. */
  function PageNumber(page: int): string {
    if page >= 0 then Decimal(page) else "-" + Decimal(-page)
  }

  /** Leading slashes of the query never reach the path. */
  lemma SearchPathIgnoresSlashes(source: string, comicType: string, page: int, query: string, k: nat)
    ensures SearchPath(source, comicType, page, Slashes(k) + query) == SearchPath(source, comicType, page, query)
  {
    StripSlashesOfSlashes(k, query);
  }

  /** A second page of a "Manga" search for "/solo" on "komiku" asks for
      "komiku/search/page/2/manga/solo"; the first page has no page segment. */
  lemma SearchPathExample()
    ensures SearchPath("komiku", "Manga", 2, "/solo") == "komiku" + "/search/page/" + "2" + "/" + "manga" + "/" + "solo"
    ensures SearchPath("komiku", "Manga", 1, "/solo") == "komiku" + "/search/" + "manga" + "/" + "solo"
  {
    ExampleParts();
  }

  lemma ExampleParts()
    ensures ToLower("Manga") == "manga" && StripSlashes("/solo") == "solo" && PageNumber(2) == "2"
  {
    var lower := ToLower("Manga");
    assert |lower| == 5;
    assert lower[0] == 'm' && lower[1] == 'a' && lower[2] == 'n' && lower[3] == 'g' && lower[4] == 'a';
    assert "/solo"[1..] == "solo";
    assert Decimal(2) == [DigitChar(2)];
  }

  /** `page < max_page` in JavaScript: false for an absent or null
      `max_page` with the positive pages the screen uses. */
  predicate Below(page: int, maxPage: Option<int>) {
    if maxPage.Some? then page < maxPage.value else page < 0
  }

  /** A reply `fetchResults` acts on: status 200 with a `data.data`. */
  predicate Succeeded(response: SearchResponse) {
    response.SearchReplied? && response.status == 200 && response.data.Some?
  }

  class SearchScreen {
    var searchSource: string
    var comicType: string
    var tempSource: string
    var tempType: string
    var searchResults: seq<MangaItem>
    var isLoading: bool
    var currentPage: int
    var maxPage: Option<int>
    var hasMore: bool
    var lastSearchQuery: string

    ghost predicate Valid()
      reads this
    {
      currentPage >= 1
    }

    /** The initial state (lines 6-30), from what the store held. */
    constructor (stored: StoredSearch)
      ensures Valid()
      ensures searchSource == tempSource == stored.searchSource
      ensures comicType == tempType == stored.comicType
      ensures searchResults == stored.results && lastSearchQuery == stored.lastQuery
      ensures !isLoading && currentPage == 1 && maxPage.None? && hasMore
    {
      searchSource, tempSource := stored.searchSource, stored.searchSource;
      comicType, tempType := stored.comicType, stored.comicType;
      searchResults := stored.results;
      lastSearchQuery := stored.lastQuery;
      isLoading := false;
      currentPage := 1;
      maxPage := None;
      hasMore := true;
    }

    /** The source and type drop-downs. */
    method Choose(source: string, comicType: string)
      modifies this
      ensures tempSource == source && tempType == comicType
      ensures searchSource == old(searchSource) && this.comicType == old(this.comicType)
      ensures searchResults == old(searchResults) && isLoading == old(isLoading)
      ensures currentPage == old(currentPage) && maxPage == old(maxPage) && hasMore == old(hasMore)
      ensures lastSearchQuery == old(lastSearchQuery)
    {
      tempSource, tempType := source, comicType;
    }

    /** `fetchResults` (lines 75-101): returns the request path.  On status
        200 it sets `maxPage`, replaces (new search) or extends the results,
        and sets `hasMore` to page < max_page; any other outcome changes
        none of them.  The path uses the drop-downs' current values. */
    method FetchResults(page: int, query: string, isNewSearch: bool, response: SearchResponse) returns (path: string)
      modifies this
      ensures path == SearchPath(old(tempSource), old(tempType), page, query)
      ensures !isLoading
      ensures Succeeded(response) ==>
                && maxPage == response.data.value.maxPage
                && searchResults == (if isNewSearch then response.data.value.results
                                     else old(searchResults) + response.data.value.results)
                && hasMore == Below(page, response.data.value.maxPage)
      ensures !(Succeeded(response)) ==>
                searchResults == old(searchResults) && maxPage == old(maxPage) && hasMore == old(hasMore)
      ensures searchSource == old(searchSource) && comicType == old(comicType)
      ensures tempSource == old(tempSource) && tempType == old(tempType)
      ensures currentPage == old(currentPage) && lastSearchQuery == old(lastSearchQuery)
    {
      isLoading := true;
      path := SearchPath(tempSource, tempType, page, query);
      if Succeeded(response) {
        var data := response.data.value;
        maxPage := data.maxPage;
        searchResults := if isNewSearch then data.results else searchResults + data.results;
        hasMore := Below(page, data.maxPage);
      }
      isLoading := false;
    }

    /** `handleSearch` (lines 56-73).  A query that trims to empty (Blank, by
        Text.TrimEmptyIffBlank) changes nothing and fetches nothing (`path`
        None); otherwise the drop-downs are committed
        and stored, the pagination is reset, and page 1 is fetched as a new
        search. */
    method HandleSearch(store: LocalStorage, searchQuery: string, response: SearchResponse)
      returns (path: Option<string>)
      requires Valid()
      modifies this, store
      ensures Valid()
      ensures Blank(searchQuery) ==>
                && path.None?
                && searchSource == old(searchSource) && comicType == old(comicType)
                && searchResults == old(searchResults) && isLoading == old(isLoading)
                && currentPage == old(currentPage) && maxPage == old(maxPage) && hasMore == old(hasMore)
                && lastSearchQuery == old(lastSearchQuery)
                && store.items == old(store.items)
      ensures !Blank(searchQuery) ==>
                && path == Some(SearchPath(old(tempSource), old(tempType), 1, searchQuery))
                && searchSource == old(tempSource) && comicType == old(tempType)
                && store.items == old(store.items)[SearchSourceKey := old(tempSource)][ComicTypeKey := old(tempType)]
                && currentPage == 1 && lastSearchQuery == searchQuery && !isLoading
                && (Succeeded(response) ==>
                      && searchResults == response.data.value.results
                      && maxPage == response.data.value.maxPage
                      && hasMore == Below(1, response.data.value.maxPage))
                && (!(Succeeded(response)) ==>
                      searchResults == [] && maxPage.None? && hasMore)
      ensures tempSource == old(tempSource) && tempType == old(tempType)
      ensures store.readingHistory == old(store.readingHistory) && store.searchResults == old(store.searchResults)
    {
      if Blank(searchQuery) {
        return None;
      }
      searchSource := tempSource;
      comicType := tempType;
      store.SetItem(SearchSourceKey, tempSource);
      store.SetItem(ComicTypeKey, tempType);
      currentPage := 1;
      searchResults := [];
      maxPage := None;
      hasMore := true;
      lastSearchQuery := searchQuery;
      var p := FetchResults(1, searchQuery, true, response);
      path := Some(p);
    }

    /** `loadMoreResults` (lines 103-109): only while the current page is
        below `maxPage` (an unset `maxPage` stops it), the next page of the
        last query is fetched and appended. */
    method LoadMoreResults(response: SearchResponse) returns (path: Option<string>)
      requires Valid()
      modifies this
      ensures Valid()
      ensures !Below(old(currentPage), old(maxPage)) ==>
                && path.None?
                && currentPage == old(currentPage) && searchResults == old(searchResults)
                && maxPage == old(maxPage) && hasMore == old(hasMore) && isLoading == old(isLoading)
      ensures Below(old(currentPage), old(maxPage)) ==>
                && currentPage == old(currentPage) + 1
                && path == Some(SearchPath(old(tempSource), old(tempType), currentPage, old(lastSearchQuery)))
                && !isLoading
      ensures Below(old(currentPage), old(maxPage)) && Succeeded(response) ==>
                && searchResults == old(searchResults) + response.data.value.results
                && maxPage == response.data.value.maxPage
                && hasMore == Below(old(currentPage) + 1, response.data.value.maxPage)
      ensures Below(old(currentPage), old(maxPage)) && !Succeeded(response) ==>
                searchResults == old(searchResults) && maxPage == old(maxPage) && hasMore == old(hasMore)
      ensures searchSource == old(searchSource) && comicType == old(comicType)
      ensures tempSource == old(tempSource) && tempType == old(tempType)
      ensures lastSearchQuery == old(lastSearchQuery)
    {
      if !Below(currentPage, maxPage) {
        return None;
      }
      var nextPage := currentPage + 1;
      currentPage := nextPage;
      var p := FetchResults(nextPage, lastSearchQuery, false, response);
      path := Some(p);
    }

    /** The effect of lines 32-35: the results and the last query are kept in
        the store. */
    method Persist(store: LocalStorage)
      modifies store
      ensures store.searchResults == Parsed(searchResults)
      ensures store.items == old(store.items)[LastSearchQueryKey := lastSearchQuery]
      ensures store.readingHistory == old(store.readingHistory)
    {
      store.SetSearchResults(searchResults);
      store.SetItem(LastSearchQueryKey, lastSearchQuery);
    }
  }

  /** What a persisted screen leaves is what a new screen starts from: the
      results and the last query read back (the source and type as stored, or
      their defaults). */
  lemma PersistedSearchReadsBack(items: map<string, string>, results: seq<MangaItem>, query: string)
    ensures var s := Read(items[LastSearchQueryKey := query], Parsed(results));
      && s.Some? && s.value.results == results && s.value.lastQuery == query
  {
  }
}
