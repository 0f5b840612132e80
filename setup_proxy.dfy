/**
 * src/setupProxy.js: the development server's proxy rules.  Each rewrites the
 * request path with an anchored, single-occurrence replacement.
 */
module SetupProxy {
  import opened Text

  const KomikuPrefix := "/api/komiku"
  const KomikuApiPrefix := "/api/komiku-api"
  const ComicPrefix := "/api/comic"
  const FlyPrefix := "/api/fly"

  /** `path.replace(/^\/api\/komiku/, '')`. */
  function RewriteKomiku(path: string): (r: string)
    ensures |KomikuPrefix| <= |path| && path[..|KomikuPrefix|] == KomikuPrefix ==> r == path[|KomikuPrefix|..]
    ensures !(|KomikuPrefix| <= |path| && path[..|KomikuPrefix|] == KomikuPrefix) ==> r == path
  {
    ReplacePrefix(path, KomikuPrefix, "")
  }

  /** `path.replace(/^\/api\/komiku-api/, '')`. */
  function RewriteKomikuApi(path: string): (r: string)
    ensures |KomikuApiPrefix| <= |path| && path[..|KomikuApiPrefix|] == KomikuApiPrefix ==> r == path[|KomikuApiPrefix|..]
    ensures !(|KomikuApiPrefix| <= |path| && path[..|KomikuApiPrefix|] == KomikuApiPrefix) ==> r == path
  {
    ReplacePrefix(path, KomikuApiPrefix, "")
  }

  /** `path.replace(/^\/api\/comic/, '/api/fly')`. */
  function RewriteComic(path: string): (r: string)
    ensures |ComicPrefix| <= |path| && path[..|ComicPrefix|] == ComicPrefix ==> r == FlyPrefix + path[|ComicPrefix|..]
    ensures !(|ComicPrefix| <= |path| && path[..|ComicPrefix|] == ComicPrefix) ==> r == path
  {
    ReplacePrefix(path, ComicPrefix, FlyPrefix)
  }

  /** The prefix of each rule is removed or replaced, and what follows it is
      kept, however many further copies of the prefix it holds. */
  lemma RewritesPrefixed(s: string)
    ensures RewriteKomiku(KomikuPrefix + s) == s
    ensures RewriteKomikuApi(KomikuApiPrefix + s) == s
    ensures RewriteComic(ComicPrefix + s) == FlyPrefix + s
  {
    ReplacePrefixOfPrefixed(KomikuPrefix, "", s);
    ReplacePrefixOfPrefixed(KomikuApiPrefix, "", s);
    ReplacePrefixOfPrefixed(ComicPrefix, FlyPrefix, s);
    assert "" + s == s;
  }

  /** The Komiku rule's pattern also matches the start of the longer
      "/api/komiku-api" prefix: applied to "/api/komiku-api/x" it leaves
      "-api/x".  Which rule a request reaches is decided by the server's
      mount-path matching, which is outside this model. */
  lemma KomikuRuleOnKomikuApiPath(s: string)
    ensures RewriteKomiku(KomikuApiPrefix + s) == "-api" + s
  {
    assert KomikuApiPrefix == KomikuPrefix + "-api";
    ReplacePrefixOfLonger(KomikuPrefix, "-api", "", s);
    assert "" + ("-api" + s) == "-api" + s;
  }

  /** Only the leading copy goes: a path made of the prefix twice keeps the
      second copy. */
  lemma SecondCopySurvives()
    ensures RewriteComic(ComicPrefix + ComicPrefix) == FlyPrefix + ComicPrefix
    ensures RewriteKomiku(KomikuPrefix + KomikuPrefix) == KomikuPrefix
  {
    RewritesPrefixed(ComicPrefix);
    RewritesPrefixed(KomikuPrefix);
  }
}
