/**
 * src/components/HistoryPage.js: the list of comics read, most recent first,
 * the resume action, and the backup to the signed-in user's cloud store.
 * Sign-in, the backup write and the backup count are inputs.
 */
module HistoryPage {
  import opened Wrappers
  import opened Text
  import opened History
  import opened Storage
  import opened SearchUtils
  import ReadComicPage

  /** A signed-in user as `getCurrentUser`/`signInWithGoogle` give it. */
  datatype User = User(uid: string, displayName: string, email: string)

  /** `user.displayName || user.email`. */
  function ShownName(u: User): string {
    Or(u.displayName, u.email)
  }

  /** The request URL of line 72. */
  function InfoUrl(source: string, mangaUrl: string): string {
    ReadComicPage.ApiBase + source + "/info/" + StripSlashes(mangaUrl)
  }

  /** A history item with any number of extra leading slashes on its
      `manga_url` asks for the same info. */
  lemma InfoUrlIgnoresSlashes(source: string, mangaUrl: string, k: nat)
    ensures InfoUrl(source, Slashes(k) + mangaUrl) == InfoUrl(source, mangaUrl)
  {
    StripSlashesOfSlashes(k, mangaUrl);
  }

  /** The record `handleMangaClick` hands to `onMangaSelect` (lines 68-101),
      if any: with the fetched info and its chapter list (or [] when it has
      none) on a reply with `data.data`; nothing on a reply without it; with
      an empty chapter list when the fetch throws. */
  function ResumeFor(item: HistoryEntry, response: InfoResponse): (r: Option<MangaItem>)
    ensures response.InfoReplied? && response.data.None? <==> r.None?
    ensures r.Some? ==>
              && r.value.(mangaInfo := None, chapterList := None) == ResumeRecord(item)
              && r.value.isFromHistory && r.value.endpoint == item.lastReadChapter.endpoint
              && r.value.title == item.title
              && r.value.thumbnail == (if item.cover != "" then item.cover else item.thumbnail)
    ensures r.Some? && response.InfoReplied? ==>
              && r.value.mangaInfo == response.data
              && r.value.chapterList == Some(response.data.value.chapterList.GetOr([]))
    ensures r.Some? && response.InfoFailed? ==> r.value.mangaInfo.None? && r.value.chapterList == Some([])
  {
    var base := ResumeRecord(item);
    match response
    case InfoFailed => Some(base.(chapterList := Some([])))
    case InfoReplied(data) =>
      if data.None? then None
      else Some(base.(mangaInfo := data, chapterList := Some(data.value.chapterList.GetOr([]))))
  }

  class HistoryScreen {
    var history: seq<HistoryEntry>
    var loading: bool
    var isAuthenticated: bool
    /** The `userName` state; "" while it is null. */
    var userName: string
    var backupCount: nat
    var showWarning: bool

    constructor ()
      ensures history == [] && !loading && !isAuthenticated && userName == "" && backupCount == 0 && !showWarning
    {
      history := [];
      loading := false;
      isAuthenticated := false;
      userName := "";
      backupCount := 0;
      showWarning := false;
    }

    /** The mount effect (lines 13-35): the stored search is cleared, the
        history loaded and sorted, and a user already signed in is shown
        with the backup count.  `count` is None when `getBackupCount`
        rejects (its read fails, or the stored document has no `history`,
        googleAuth.js:39-46); nothing catches that, so the count stays. */
    method Mount(store: LocalStorage, currentUser: Option<User>, count: Option<nat>)
      modifies this, store
      ensures store.items == Cleared(old(store.items)) && store.searchResults == Missing
      ensures store.readingHistory == old(store.readingHistory)
      ensures history == LoadedHistory(store.readingHistory)
      ensures currentUser.Some? ==> isAuthenticated && userName == ShownName(currentUser.value)
      ensures backupCount == if currentUser.Some? && count.Some? then count.value else old(backupCount)
      ensures currentUser.None? ==>
                isAuthenticated == old(isAuthenticated) && userName == old(userName) && backupCount == old(backupCount)
      ensures loading == old(loading) && showWarning == old(showWarning)
    {
      var _ := ClearSearchResults(store);
      history := LoadedHistory(store.readingHistory);
      if currentUser.Some? {
        isAuthenticated := true;
        userName := ShownName(currentUser.value);
        if count.Some? {
          backupCount := count.value;
        }
      }
    }

    /** The body both backup handlers share (lines 38-49 and 54-65): sign in
        (None when it throws), back up the shown list (`backedUp` false when
        the write throws), read the count (None when `getBackupCount`
        throws, which the catch swallows after the backup was sent).  Returns
        what was sent to the backup store; the local list is never changed. */
    method Backup(signIn: Option<User>, backedUp: bool, count: Option<nat>) returns (sent: Option<seq<HistoryEntry>>)
      modifies this
      ensures history == old(history) && loading == old(loading) && showWarning == old(showWarning)
      ensures sent.Some? <==> signIn.Some? && backedUp
      ensures sent.Some? ==> sent.value == history
      ensures signIn.Some? ==> isAuthenticated && userName == ShownName(signIn.value)
      ensures signIn.None? ==> isAuthenticated == old(isAuthenticated) && userName == old(userName)
      ensures backupCount == if sent.Some? && count.Some? then count.value else old(backupCount)
    {
      sent := None;
      if signIn.Some? {
        isAuthenticated := true;
        userName := ShownName(signIn.value);
        if backedUp {
          sent := Some(history);
          if count.Some? {
            backupCount := count.value;
          }
        }
      }
    }

    /** `handleGoogleBackup`. */
    method HandleGoogleBackup(signIn: Option<User>, backedUp: bool, count: Option<nat>) returns (sent: Option<seq<HistoryEntry>>)
      modifies this
      ensures history == old(history) && loading == old(loading) && showWarning == old(showWarning)
      ensures sent.Some? <==> signIn.Some? && backedUp
      ensures sent.Some? ==> sent.value == history
      ensures signIn.Some? ==> isAuthenticated && userName == ShownName(signIn.value)
      ensures signIn.None? ==> isAuthenticated == old(isAuthenticated) && userName == old(userName)
      ensures backupCount == if sent.Some? && count.Some? then count.value else old(backupCount)
    {
      sent := Backup(signIn, backedUp, count);
    }

    /** `confirmBackup`: the warning is closed first. */
    method ConfirmBackup(signIn: Option<User>, backedUp: bool, count: Option<nat>) returns (sent: Option<seq<HistoryEntry>>)
      modifies this
      ensures history == old(history) && loading == old(loading) && !showWarning
      ensures sent.Some? <==> signIn.Some? && backedUp
      ensures sent.Some? ==> sent.value == history
      ensures signIn.Some? ==> isAuthenticated && userName == ShownName(signIn.value)
      ensures signIn.None? ==> isAuthenticated == old(isAuthenticated) && userName == old(userName)
      ensures backupCount == if sent.Some? && count.Some? then count.value else old(backupCount)
    {
      showWarning := false;
      sent := Backup(signIn, backedUp, count);
    }

    /** `handleMangaClick`: the info request it makes for the clicked record
        and, given the reply, the record for the shell, if any. */
    method HandleMangaClick(k: nat, response: InfoResponse) returns (url: string, selected: Option<MangaItem>)
      requires k < |history|
      modifies this
      ensures history == old(history) && !loading
      ensures url == InfoUrl(history[k].source, history[k].mangaUrl)
      ensures selected == ResumeFor(history[k], response)
      ensures isAuthenticated == old(isAuthenticated) && backupCount == old(backupCount)
      ensures userName == old(userName) && showWarning == old(showWarning)
    {
      loading := true;
      url := InfoUrl(history[k].source, history[k].mangaUrl);
      selected := ResumeFor(history[k], response);
      loading := false;
    }
  }
}
