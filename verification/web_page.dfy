/**
 The `WebPage` record: a page's display name, its URL and the anchor
 markup found on it. The Java class is a mutable bean; here it is an
 immutable value and every setter returns the updated record.
 */
module WebPages {

  /** The getters `getPageName`, `getPageUrl` and `getLinksPage` are the field destructors. */
  datatype WebPage = WebPage(pageName: string, pageUrl: string, linksPage: seq<string>)

  /** `new WebPage(name, url)`: the given name and URL, and an empty (never null) link list. */
  function NewWebPage(name: string, url: string): (p: WebPage)
    ensures p.pageName == name && p.pageUrl == url
    ensures p.linksPage == []
  {
    WebPage(name, url, [])
  }

  /** `setPageName`: only the name changes. */
  function SetPageName(p: WebPage, name: string): (q: WebPage)
    ensures q.pageName == name
    ensures q.pageUrl == p.pageUrl && q.linksPage == p.linksPage
  {
    p.(pageName := name)
  }

  /** `setPageUrl`: only the URL changes. */
  function SetPageUrl(p: WebPage, url: string): (q: WebPage)
    ensures q.pageUrl == url
    ensures q.pageName == p.pageName && q.linksPage == p.linksPage
  {
    p.(pageUrl := url)
  }

  /** `setLinksPage`: the list is replaced as a whole, whatever it held before; nothing is merged. */
  function SetLinksPage(p: WebPage, links: seq<string>): (q: WebPage)
    ensures q.linksPage == links
    ensures q.pageName == p.pageName && q.pageUrl == p.pageUrl
  {
    p.(linksPage := links)
  }

  /** One call of a setter, as it appears in a history of calls. */
  datatype Update = SetName(name: string) | SetUrl(url: string) | SetLinks(links: seq<string>)

  function Apply(p: WebPage, u: Update): WebPage {
    match u
    case SetName(n) => SetPageName(p, n)
    case SetUrl(v) => SetPageUrl(p, v)
    case SetLinks(l) => SetLinksPage(p, l)
  }

  /** The record after the setter calls `us`, performed first to last. */
  function ApplyAll(p: WebPage, us: seq<Update>): WebPage
    decreases |us|
  {
    if us == [] then p else ApplyAll(Apply(p, us[0]), us[1..])
  }

  /** The name given by the last `SetName` in `us`, or `initial` when there is none. */
  function LastName(initial: string, us: seq<Update>): string
    decreases |us|
  {
    if us == [] then initial
    else if us[|us| - 1].SetName? then us[|us| - 1].name
    else LastName(initial, us[..|us| - 1])
  }

  /** The URL given by the last `SetUrl` in `us`, or `initial` when there is none. */
  function LastUrl(initial: string, us: seq<Update>): string
    decreases |us|
  {
    if us == [] then initial
    else if us[|us| - 1].SetUrl? then us[|us| - 1].url
    else LastUrl(initial, us[..|us| - 1])
  }

  /** The list given by the last `SetLinks` in `us`, or `initial` when there is none. */
  function LastLinks(initial: seq<string>, us: seq<Update>): seq<string>
    decreases |us|
  {
    if us == [] then initial
    else if us[|us| - 1].SetLinks? then us[|us| - 1].links
    else LastLinks(initial, us[..|us| - 1])
  }

  lemma {:induction false} ApplyAllSnoc(p: WebPage, us: seq<Update>, u: Update)
    ensures ApplyAll(p, us + [u]) == Apply(ApplyAll(p, us), u)
    decreases |us|
  {
    if us != [] {
      assert (us + [u])[1..] == us[1..] + [u];
      ApplyAllSnoc(Apply(p, us[0]), us[1..], u);
    }
  }

  /**
   After construction and any sequence of setter calls, each getter returns
   the value stored by the last matching setter, or the constructor's value
   when that setter was never called.
   */
  lemma {:induction false} GettersReturnLastStored(name: string, url: string, us: seq<Update>)
    ensures ApplyAll(NewWebPage(name, url), us).pageName == LastName(name, us)
    ensures ApplyAll(NewWebPage(name, url), us).pageUrl == LastUrl(url, us)
    ensures ApplyAll(NewWebPage(name, url), us).linksPage == LastLinks([], us)
    decreases |us|
  {
    if us != [] {
      var front := us[..|us| - 1];
      var u := us[|us| - 1];
      assert us == front + [u];
      ApplyAllSnoc(NewWebPage(name, url), front, u);
      GettersReturnLastStored(name, url, front);
    }
  }
}
