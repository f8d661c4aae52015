/** One page visit, `crawl_page` (app.py:38-70): the records built from the e-mail addresses
    found in the page text and the set of canonical links built from its anchors. The HTTP
    response and what the HTML parser finds in it are inputs; `urljoin` followed by
    `urlparse` is the abstract resolver `resolve`. */
module Pages {
  import opened Chars
  import opened Wrappers
  import opened Normalizer
  import opened Emails
  import opened Links

  /** One row of the result table: `{"Email", "Page URL", "Page Title"}` (app.py:54-58). */
  datatype Record = Record(email: string, pageUrl: string, pageTitle: string)

  /** What the HTML parser finds as the page title: no `<title>` element, one whose
      `.string` is `None` (empty, or several children), or one with a single string. */
  datatype TitleTag = NoTitle | TitleWithoutString | TitleString(text: string)

  /** The outcome of `session.get`: a raised transport error, or a response with its status
      code, its final URL after redirects, and what the parser makes of its body (the title,
      `get_text(" ", strip=True)` and the `href` of every anchor, in document order). */
  datatype Response =
    | TransportError
    | Response(status: int, finalUrl: string, title: TitleTag, pageText: string, hrefs: seq<string>)

  /** The pair `(found_data, links)` that `crawl_page` returns. */
  datatype PageResult = PageResult(data: seq<Record>, links: set<string>)

  /** `([], [])`, the result of every failure (app.py:42, 70). */
  const Nothing := PageResult([], {})

  // ---------------------------------------------------------------------------
  // The title

  /** Length of the longest whitespace suffix of `s`. */
  function TrailRun(s: string): (n: nat)
    ensures n <= |s|
    ensures forall i :: |s| - n <= i < |s| ==> IsSpace(s[i])
    ensures n < |s| ==> !IsSpace(s[|s| - 1 - n])
  {
    if s != [] && IsSpace(s[|s| - 1]) then 1 + TrailRun(s[..|s| - 1]) else 0
  }

  /** `str.strip()` with ASCII whitespace. */
  function Strip(s: string): (t: string)
    ensures t == [] || (!IsSpace(t[0]) && !IsSpace(t[|t| - 1]))
  {
    var a := SpaceRun(s);
    s[a..|s| - TrailRun(s[a..])]
  }

  lemma {:induction false} TrailRunOf(t: string, w: string)
    requires AllSpace(w)
    requires t == [] || !IsSpace(t[|t| - 1])
    ensures TrailRun(t + w) == |w|
  {
    if w == [] {
      assert t + w == t;
    } else {
      assert (t + w)[..|t + w| - 1] == t + w[..|w| - 1];
      TrailRunOf(t, w[..|w| - 1]);
    }
  }

  /** `strip` removes exactly the whitespace around a text that neither starts nor ends
      with whitespace. */
  lemma StripPadded(w1: string, t: string, w2: string)
    requires AllSpace(w1) && AllSpace(w2)
    requires t == [] || (!IsSpace(t[0]) && !IsSpace(t[|t| - 1]))
    ensures Strip(w1 + t + w2) == t
  {
    var s := w1 + t + w2;
    if t == [] {
      assert s == (w1 + w2) + [];
      SpaceRunOf(w1 + w2, []);
    } else {
      assert s == w1 + (t + w2);
      SpaceRunOf(w1, t + w2);
      assert s[|w1|..] == t + w2;
      TrailRunOf(t, w2);
      assert s[|w1|..|s| - |w2|] == t;
    }
  }

  /** The title stored in every record (app.py:46): `"N/A"` without a `<title>` element,
      the stripped string otherwise; `None` where `.strip()` is called on `None` and
      raises. */
  function PageTitle(t: TitleTag): (r: Option<string>)
    ensures r.None? <==> t.TitleWithoutString?
    ensures t.NoTitle? ==> r == Some("N/A")
  {
    match t
    case NoTitle => Some("N/A")
    case TitleWithoutString => None
    case TitleString(text) => Some(Strip(text))
  }

  // ---------------------------------------------------------------------------
  // Links and records

  /** The canonical links of `hrefs` resolved against `base`; `None` when resolving any of
      them raises, which abandons the whole page. */
  function CleanLinks(base: string, hrefs: seq<string>, resolve: (string, string) -> Option<Url>)
    : (r: Option<set<string>>)
    ensures r.Some? <==> forall k :: 0 <= k < |hrefs| ==> resolve(base, hrefs[k]).Some?
    ensures r.Some? ==> forall l :: l in r.value <==>
              exists k :: 0 <= k < |hrefs| && resolve(base, hrefs[k]).Some? &&
                          l == CleanLink(resolve(base, hrefs[k]).value)
  {
    if hrefs == [] then Some({})
    else
      var last := hrefs[|hrefs| - 1];
      match CleanLinks(base, hrefs[..|hrefs| - 1], resolve)
      case None => None
      case Some(links) =>
        match resolve(base, last)
        case None => None
        case Some(u) => Some(links + {CleanLink(u)})
  }

  /** The e-mail addresses of a list of records. */
  function EmailsOf(data: seq<Record>): set<string> {
    set r | r in data :: r.email
  }

  lemma EmailsOfAppend(a: seq<Record>, b: seq<Record>)
    ensures EmailsOf(a + b) == EmailsOf(a) + EmailsOf(b)
  {
    forall e | e in EmailsOf(a + b) ensures e in EmailsOf(a) + EmailsOf(b) {
      var r :| r in a + b && r.email == e;
    }
    forall e | e in EmailsOf(a) + EmailsOf(b) ensures e in EmailsOf(a + b) {
      if e in EmailsOf(a) {
        var r :| r in a && r.email == e;
        assert r in a + b;
      } else {
        var r :| r in b && r.email == e;
        assert r in a + b;
      }
    }
  }

  /** No two records carry the same address. */
  predicate DistinctEmails(data: seq<Record>) {
    forall i, j :: 0 <= i < j < |data| ==> data[i].email != data[j].email
  }

  /** Appending a record with a new address keeps the addresses distinct. */
  lemma AppendRecord(data: seq<Record>, r: Record)
    requires DistinctEmails(data) && r.email !in EmailsOf(data)
    ensures DistinctEmails(data + [r])
    ensures EmailsOf(data + [r]) == EmailsOf(data) + {r.email}
  {
    forall i | 0 <= i < |data| ensures data[i].email != r.email {
      assert data[i] in data;
    }
    EmailsOfAppend(data, [r]);
    assert EmailsOf([r]) == {r.email} by {
      assert r in [r];
    }
  }

  /** The response was fetched with status 200 and its title could be read: the only case
      in which `crawl_page` gets past line 46. */
  predicate Fetched(resp: Response) {
    resp.Response? && resp.status == 200 && PageTitle(resp.title).Some?
  }

  /** The loop of app.py:52-58: one record per address, carrying the page's URL and title. */
  method BuildRecords(emails: set<string>, pageUrl: string, title: string) returns (data: seq<Record>)
    ensures EmailsOf(data) == emails && DistinctEmails(data)
    ensures forall r :: r in data ==> r.pageUrl == pageUrl && r.pageTitle == title
  {
    data := [];
    var left := emails;
    while left != {}
      invariant left <= emails
      invariant EmailsOf(data) == emails - left
      invariant DistinctEmails(data)
      invariant forall r :: r in data ==> r.pageUrl == pageUrl && r.pageTitle == title
      decreases |left|
    {
      var e :| e in left;
      AppendRecord(data, Record(e, pageUrl, title));
      data := data + [Record(e, pageUrl, title)];
      left := left - {e};
    }
  }

  /** The loop of app.py:60-65: resolve each anchor against the final URL and collect its
      canonical link; `None` as soon as one resolution raises. */
  method ResolveLinks(base: string, hrefs: seq<string>, resolve: (string, string) -> Option<Url>)
    returns (links: Option<set<string>>)
    ensures links == CleanLinks(base, hrefs, resolve)
  {
    var found: set<string> := {};
    var i := 0;
    while i < |hrefs|
      invariant 0 <= i <= |hrefs|
      invariant CleanLinks(base, hrefs[..i], resolve) == Some(found)
    {
      assert hrefs[..i + 1][..i] == hrefs[..i];
      match resolve(base, hrefs[i]) {
        case None =>
          assert CleanLinks(base, hrefs[..i + 1], resolve).None?;
          CleanLinksPrefix(base, hrefs, i + 1, resolve);
          return None;
        case Some(u) =>
          found := found + {CleanLink(u)};
      }
      i := i + 1;
    }
    assert hrefs[..i] == hrefs;
    return Some(found);
  }

  /** What `crawl_page` returns for `resp`, as a relation between the response and the
      result: `([], [])` when the page cannot be fetched or one of its anchors cannot be
      resolved, otherwise one record per address of the normalised page text, each with
      the final URL and the title, and exactly the canonical links of the anchors. The order
      of the records is left open, as is the order in which Python iterates a set. */
  ghost predicate PageOf(resp: Response, resolve: (string, string) -> Option<Url>, res: PageResult) {
    if !Fetched(resp) || CleanLinks(resp.finalUrl, resp.hrefs, resolve).None? then res == Nothing
    else
      && res.links == CleanLinks(resp.finalUrl, resp.hrefs, resolve).value
      && EmailsOf(res.data) == ExtractEmails(Normalize(resp.pageText))
      && DistinctEmails(res.data)
      && forall r :: r in res.data ==>
           r.pageUrl == resp.finalUrl && Some(r.pageTitle) == PageTitle(resp.title)
  }

  /** `crawl_page`: every failure (transport error, status other than 200, unreadable title,
      an anchor that cannot be resolved) gives `([], [])`; otherwise one record per distinct
      address found in the normalised page text, each carrying the final URL and the page
      title, and the set of canonical links of the anchors. */
  method CrawlPage(resp: Response, resolve: (string, string) -> Option<Url>) returns (res: PageResult)
    ensures PageOf(resp, resolve, res)
  {
    if resp.TransportError? || resp.status != 200 {
      return Nothing;
    }
    var title;
    match PageTitle(resp.title) {
      case None => return Nothing;
      case Some(t) => title := t;
    }
    var normalized := NormalizeText(resp.pageText);
    var data := BuildRecords(ExtractEmails(normalized), resp.finalUrl, title);
    var links := ResolveLinks(resp.finalUrl, resp.hrefs, resolve);
    match links {
      case None => return Nothing;
      case Some(found) => return PageResult(data, found);
    }
  }

  /** An anchor that cannot be resolved abandons every longer list of anchors too. */
  lemma CleanLinksPrefix(base: string, hrefs: seq<string>, n: nat, resolve: (string, string) -> Option<Url>)
    requires n <= |hrefs| && CleanLinks(base, hrefs[..n], resolve).None?
    ensures CleanLinks(base, hrefs, resolve).None?
  {
    var k :| 0 <= k < n && resolve(base, hrefs[..n][k]).None?;
    assert hrefs[..n][k] == hrefs[k];
  }
}
