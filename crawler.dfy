/** The coordinating crawl loop (app.py:96-100, 120-185) as a sequential state machine. The
    thread pool only produces completions: which in-flight URL completes next is chosen
    nondeterministically, and a page's outcome comes from the oracle `fetch` through
    `crawl_page`. An in-flight future is identified by the URL it was submitted for, which
    is sound because no URL is submitted twice. */
module Frontier {
  import opened Wrappers
  import opened Links
  import opened Pages
  import opened Normalizer
  import opened Emails

  /** The records that the deduplicating merge (app.py:142-149) appends when `data` comes
      in and `seen` holds the addresses already recorded: each record whose address is
      neither in `seen` nor in an earlier record of `data`. */
  function FreshRecords(seen: set<string>, data: seq<Record>): seq<Record>
    decreases |data|
  {
    if data == [] then []
    else if data[0].email in seen then FreshRecords(seen, data[1..])
    else [data[0]] + FreshRecords(seen + {data[0].email}, data[1..])
  }

  /** The fresh records have distinct addresses, exactly the addresses of `data` not in
      `seen`, and come from `data`. */
  lemma {:induction false} FreshRecordsSound(seen: set<string>, data: seq<Record>)
    ensures DistinctEmails(FreshRecords(seen, data))
    ensures EmailsOf(FreshRecords(seen, data)) == EmailsOf(data) - seen
    ensures forall x :: x in FreshRecords(seen, data) ==> x in data
    decreases |data|
  {
    if data != [] {
      assert data == [data[0]] + data[1..];
      EmailsOfAppend([data[0]], data[1..]);
      assert EmailsOf([data[0]]) == {data[0].email} by {
        assert data[0] in [data[0]];
      }
      if data[0].email in seen {
        FreshRecordsSound(seen, data[1..]);
      } else {
        var rest := FreshRecords(seen + {data[0].email}, data[1..]);
        FreshRecordsSound(seen + {data[0].email}, data[1..]);
        EmailsOfAppend([data[0]], rest);
        PrependRecord(data[0], rest);
      }
    }
  }

  lemma PrependRecord(r: Record, rest: seq<Record>)
    requires DistinctEmails(rest) && r.email !in EmailsOf(rest)
    ensures DistinctEmails([r] + rest)
  {
    forall j | 0 <= j < |rest| ensures rest[j].email != r.email {
      assert rest[j] in rest;
    }
  }

  /** A page whose addresses are distinct and all new is merged whole. */
  lemma {:induction false} FreshRecordsAllNew(seen: set<string>, data: seq<Record>)
    requires DistinctEmails(data) && EmailsOf(data) !! seen
    ensures FreshRecords(seen, data) == data
    decreases |data|
  {
    if data != [] {
      assert data == [data[0]] + data[1..];
      EmailsOfAppend([data[0]], data[1..]);
      assert data[0] in data;
      FreshRecordsAllNew(seen + {data[0].email}, data[1..]);
    }
  }

  /** `is_internal_link(_, base)` as a value, the link test the admission loop applies. */
  function InternalTo(base: string): string -> Option<bool> {
    l => IsInternal(l, base)
  }

  /** The links of a page that the admission loop (app.py:164-169) submits when it is not
      cut short: those the link test calls internal and that are not yet visited. */
  function Admissible(links: set<string>, visited: set<string>, internal: string -> Option<bool>)
    : set<string>
  {
    set l | l in links && internal(l) == Some(true) && l !in visited
  }

  /** What the crawl leaves behind: the page counter, `all_emails` and `visited_urls`, and
      the order in which the pages were scanned. */
  datatype Report = Report(pagesScanned: nat, records: seq<Record>, visited: set<string>,
                           scanOrder: seq<string>)

  /** The elements of a sequence. */
  function Elems(s: seq<string>): set<string> {
    set x | x in s
  }

  /** No element occurs twice. */
  predicate Distinct(s: seq<string>) {
    forall i, j :: 0 <= i < j < |s| ==> s[i] != s[j]
  }

  lemma ElemsAppend(s: seq<string>, x: string)
    ensures Elems(s + [x]) == Elems(s) + {x}
  {
    assert forall y :: y in s + [x] <==> y in s || y == x;
  }

  /** A sequence has at most as many distinct elements as it is long, and exactly as many
      when no element occurs twice. */
  lemma {:induction false} ElemsCard(s: seq<string>)
    ensures |Elems(s)| <= |s|
    ensures |Elems(s)| == |s| <==> Distinct(s)
  {
    if s != [] {
      var t := s[1..];
      ElemsCard(t);
      assert Elems(s) == {s[0]} + Elems(t) by {
        assert forall y :: y in s <==> y == s[0] || y in t;
      }
      if s[0] in t {
        assert s[0] in Elems(t);
        assert Elems(s) == Elems(t);
        var k :| 0 <= k < |t| && t[k] == s[0];
        assert s[k + 1] == s[0];
      } else {
        assert s[0] !in Elems(t);
        if |Elems(s)| == |s| {
          forall i, j | 0 <= i < j < |s| ensures s[i] != s[j] {
            if i == 0 {
              assert s[j] == t[j - 1];
            } else {
              assert s[i] == t[i - 1] && s[j] == t[j - 1];
            }
          }
        }
        if Distinct(s) {
          forall i, j | 0 <= i < j < |t| ensures t[i] != t[j] {
            assert t[i] == s[i + 1] && t[j] == s[j + 1];
          }
        }
      }
    }
  }

  // ---------------------------------------------------------------------------
  // The invariants of the crawl state, stated on its values

  /** Budget: the in-flight URLs are visited, the visited ones not in flight are as many
      as the pages scanned, and the visited set never exceeds the budget. */
  ghost predicate BudgetOk(maxPages: nat, visited: set<string>, inFlight: set<string>,
                           pagesScanned: nat)
  {
    && 1 <= maxPages
    && inFlight <= visited
    && pagesScanned + |inFlight| == |visited| <= maxPages
  }

  /** Submission: the start URL first, the visited set is exactly what was submitted, and
      there were as many submissions as visited URLs, so none twice (`ElemsCard`). */
  ghost predicate SubmissionsOk(startUrl: string, visited: set<string>, submitted: seq<string>) {
    && |submitted| > 0 && submitted[0] == startUrl
    && Elems(submitted) == visited && |submitted| == |visited|
  }

  /** Aggregation: with deduplication, the recorded addresses are distinct and are exactly
      `seen_emails`; without it, `seen_emails` stays empty. */
  ghost predicate AggregatedOk(dedup: bool, all: seq<Record>, seen: set<string>) {
    if dedup then DistinctEmails(all) && EmailsOf(all) == seen else seen == {}
  }

  /** Submitting distinct, unvisited links keeps the budget and the submission record, as
      long as the visited set stays within the budget. */
  lemma SubmitAll(maxPages: nat, visited: set<string>, inFlight: set<string>, pagesScanned: nat,
                  startUrl: string, submitted: seq<string>, admitted: seq<string>)
    requires BudgetOk(maxPages, visited, inFlight, pagesScanned)
    requires SubmissionsOk(startUrl, visited, submitted)
    requires Elems(admitted) !! visited && Distinct(admitted)
    requires |visited| + |admitted| <= maxPages
    ensures BudgetOk(maxPages, visited + Elems(admitted), inFlight + Elems(admitted), pagesScanned)
    ensures SubmissionsOk(startUrl, visited + Elems(admitted), submitted + admitted)
  {
    ElemsCard(admitted);
    var s := submitted + admitted;
    assert Elems(s) == Elems(submitted) + Elems(admitted) by {
      assert forall y :: y in s <==> y in submitted || y in admitted;
    }
    assert s[0] == submitted[0];
  }

  /** The merge of one page's records into `all_emails` and `seen_emails` (app.py:141-153):
      with deduplication, append each record whose address is new and remember the address;
      without it, append them all in order. Nothing recorded is ever removed. */
  method Merge(dedup: bool, all: seq<Record>, seen: set<string>, data: seq<Record>)
    returns (all': seq<Record>, seen': set<string>)
    requires AggregatedOk(dedup, all, seen)
    ensures AggregatedOk(dedup, all', seen')
    ensures dedup ==> all' == all + FreshRecords(seen, data) && seen' == seen + EmailsOf(data)
    ensures !dedup ==> all' == all + data && seen' == seen
  {
    if dedup {
      all', seen' := MergeFresh(all, seen, data);
    } else {
      all', seen' := all + data, seen;
    }
  }

  /** The frontier part of one completion (app.py:133-134, 163-171) on the values of the
      crawl state: take `url` out of flight, count the page and, when the pages scanned and
      in flight are still below the budget, submit the links `AdmitLinks` admits with
      `is_internal_link(_, base_domain)` as the link test. */
  method Advance(maxPages: nat, startUrl: string, baseDomain: string,
                 visited: set<string>, inFlight: set<string>, pagesScanned: nat,
                 ghost submitted: seq<string>, url: string, page: PageResult)
    returns (visited': set<string>, inFlight': set<string>, pagesScanned': nat,
             ghost submitted': seq<string>, ghost admitted: seq<string>)
    requires BudgetOk(maxPages, visited, inFlight, pagesScanned)
    requires SubmissionsOk(startUrl, visited, submitted)
    requires url in inFlight
    ensures BudgetOk(maxPages, visited', inFlight', pagesScanned')
    ensures SubmissionsOk(startUrl, visited', submitted')
    ensures pagesScanned' == pagesScanned + 1
    ensures visited' == visited + Elems(admitted)
    ensures inFlight' == inFlight - {url} + Elems(admitted)
    ensures Distinct(admitted)
    ensures Elems(admitted) <= Admissible(page.links, visited, InternalTo(baseDomain))
    ensures |visited| >= maxPages ==> admitted == []
    ensures |visited'| < maxPages && (forall l :: l in page.links ==> IsInternal(l, baseDomain).Some?) ==>
              Elems(admitted) == Admissible(page.links, visited, InternalTo(baseDomain))
  {
    var f, ps := inFlight - {url}, pagesScanned + 1;
    PopKeeps(maxPages, visited, inFlight, pagesScanned, url);
    var links: seq<string> := [];
    if ps + |f| < maxPages {
      links := AdmitLinks(page.links, InternalTo(baseDomain), visited, maxPages);
    } else {
      assert Elems(links) == {};
    }
    SubmitAll(maxPages, visited, f, ps, startUrl, submitted, links);
    visited', inFlight', pagesScanned' := visited + Elems(links), f + Elems(links), ps;
    submitted' := submitted + links;
    admitted := links;
  }

  /** Taking a completed URL out of flight and counting its page keeps the budget. */
  lemma PopKeeps(maxPages: nat, visited: set<string>, inFlight: set<string>, pagesScanned: nat,
                 url: string)
    requires BudgetOk(maxPages, visited, inFlight, pagesScanned) && url in inFlight
    ensures BudgetOk(maxPages, visited, inFlight - {url}, pagesScanned + 1)
  {
  }

  /** The deduplicating merge loop (app.py:142-149) on the values of `all_emails` and
      `seen_emails`: the records appended are `FreshRecords`, and the recorded addresses
      stay distinct and equal to the remembered ones. */
  method MergeFresh(all: seq<Record>, seen: set<string>, data: seq<Record>)
    returns (all': seq<Record>, seen': set<string>)
    requires DistinctEmails(all) && EmailsOf(all) == seen
    ensures all' == all + FreshRecords(seen, data)
    ensures seen' == seen + EmailsOf(data)
    ensures DistinctEmails(all') && EmailsOf(all') == seen'
  {
    all', seen' := all, seen;
    var i := 0;
    while i < |data|
      invariant 0 <= i <= |data|
      invariant all' + FreshRecords(seen', data[i..]) == all + FreshRecords(seen, data)
      invariant seen' == seen + EmailsOf(data[..i])
      invariant DistinctEmails(all') && EmailsOf(all') == seen'
    {
      if data[i].email in seen' {
        MergeSkip(all, seen, data, i, all', seen');
      } else {
        MergeKeep(all, seen, data, i, all', seen');
        seen' := seen' + {data[i].email};
        all' := all' + [data[i]];
      }
      i := i + 1;
    }
    assert data[i..] == [];
    assert data[..i] == data;
  }

  /** One turn of the merge loop keeps its invariants: an address already recorded is
      skipped, a new one is appended and remembered. */
  lemma MergeSkip(all0: seq<Record>, seen0: set<string>, data: seq<Record>, i: nat,
                  all: seq<Record>, seen: set<string>)
    requires i < |data| && data[i].email in seen
    requires all + FreshRecords(seen, data[i..]) == all0 + FreshRecords(seen0, data)
    requires seen == seen0 + EmailsOf(data[..i])
    ensures all + FreshRecords(seen, data[i + 1..]) == all0 + FreshRecords(seen0, data)
    ensures seen == seen0 + EmailsOf(data[..i + 1])
  {
    FreshStep(seen, data, i);
    EmailsStep(data, i);
  }

  lemma MergeKeep(all0: seq<Record>, seen0: set<string>, data: seq<Record>, i: nat,
                  all: seq<Record>, seen: set<string>)
    requires i < |data| && data[i].email !in seen
    requires all + FreshRecords(seen, data[i..]) == all0 + FreshRecords(seen0, data)
    requires seen == seen0 + EmailsOf(data[..i])
    requires DistinctEmails(all) && EmailsOf(all) == seen
    ensures (all + [data[i]]) + FreshRecords(seen + {data[i].email}, data[i + 1..]) ==
            all0 + FreshRecords(seen0, data)
    ensures seen + {data[i].email} == seen0 + EmailsOf(data[..i + 1])
    ensures DistinctEmails(all + [data[i]]) && EmailsOf(all + [data[i]]) == seen + {data[i].email}
  {
    KeepOrder(all0, seen0, data, i, all, seen);
    EmailsStep(data, i);
    AppendRecord(all, data[i]);
  }

  lemma KeepOrder(all0: seq<Record>, seen0: set<string>, data: seq<Record>, i: nat,
                  all: seq<Record>, seen: set<string>)
    requires i < |data| && data[i].email !in seen
    requires all + FreshRecords(seen, data[i..]) == all0 + FreshRecords(seen0, data)
    ensures (all + [data[i]]) + FreshRecords(seen + {data[i].email}, data[i + 1..]) ==
            all0 + FreshRecords(seen0, data)
  {
    FreshStep(seen, data, i);
    var rest := FreshRecords(seen + {data[i].email}, data[i + 1..]);
    assert (all + [data[i]]) + rest == all + ([data[i]] + rest);
  }

  lemma FreshStep(seen: set<string>, data: seq<Record>, i: nat)
    requires i < |data|
    ensures FreshRecords(seen, data[i..]) ==
            if data[i].email in seen then FreshRecords(seen, data[i + 1..])
            else [data[i]] + FreshRecords(seen + {data[i].email}, data[i + 1..])
  {
    assert data[i..][0] == data[i] && data[i..][1..] == data[i + 1..];
  }

  lemma EmailsStep(data: seq<Record>, i: nat)
    requires i < |data|
    ensures EmailsOf(data[..i + 1]) == EmailsOf(data[..i]) + {data[i].email}
  {
    assert data[..i + 1] == data[..i] + [data[i]];
    EmailsOfAppend(data[..i], [data[i]]);
    assert EmailsOf([data[i]]) == {data[i].email} by {
      assert data[i] in [data[i]];
    }
  }

  /** The admission loop (app.py:164-171), entered only under the guard of line 163: walk
      the links in some order, submit each one the link test calls internal that is not yet
      visited, and stop once the visited set reaches the budget or once the link test
      raises. The result lists the submitted links in submission order. */
  method AdmitLinks(links: set<string>, internal: string -> Option<bool>, visited: set<string>,
                    maxPages: nat)
    returns (admitted: seq<string>)
    requires |visited| < maxPages
    ensures Distinct(admitted) && Elems(admitted) <= Admissible(links, visited, internal)
    ensures |visited| + |admitted| <= maxPages
    ensures |visited| + |admitted| < maxPages && (forall l :: l in links ==> internal(l).Some?) ==>
              Elems(admitted) == Admissible(links, visited, internal)
  {
    admitted := [];
    var left := links;
    while left != {}
      invariant left <= links
      invariant Elems(admitted) == Admissible(links - left, visited, internal)
      invariant Distinct(admitted) && |visited| + |admitted| < maxPages
      decreases |left|
    {
      var link :| link in left;
      AdmissibleGrows(links, left, link, visited, internal);
      AdmitStep(links, left, link, internal, visited, admitted);
      left := left - {link};
      match internal(link) {
        case None =>
          AdmissibleMono(links - left, links, visited, internal);
          return;
        case Some(isInternal) =>
          if isInternal && link !in visited + Elems(admitted) {
            admitted := admitted + [link];
            if |visited| + |admitted| >= maxPages {
              AdmissibleMono(links - left, links, visited, internal);
              return;
            }
          }
      }
    }
    assert links - left == links;
  }

  /** Taking one more link into account adds it to the admissible links exactly when the
      link test calls it internal and it is not yet visited. */
  lemma AdmissibleGrows(links: set<string>, left: set<string>, link: string, visited: set<string>,
                        internal: string -> Option<bool>)
    requires left <= links && link in left
    ensures Admissible(links - (left - {link}), visited, internal) ==
            Admissible(links - left, visited, internal) +
            (if internal(link) == Some(true) && link !in visited then {link} else {})
  {
    assert links - (left - {link}) == (links - left) + {link};
  }

  lemma AdmissibleMono(a: set<string>, b: set<string>, visited: set<string>,
                       internal: string -> Option<bool>)
    requires a <= b
    ensures Admissible(a, visited, internal) <= Admissible(b, visited, internal)
  {
  }

  /** One turn of the admission loop: a link not yet taken into account is not among the
      submitted ones, so submitting it keeps them distinct. */
  lemma AdmitStep(links: set<string>, left: set<string>, link: string,
                  internal: string -> Option<bool>, visited: set<string>, admitted: seq<string>)
    requires left <= links && link in left
    requires Elems(admitted) <= Admissible(links - left, visited, internal)
    requires Distinct(admitted)
    ensures link in visited + Elems(admitted) <==> link in visited
    ensures Elems(admitted + [link]) == Elems(admitted) + {link}
    ensures Distinct(admitted + [link])
  {
    ElemsAppend(admitted, link);
    forall i | 0 <= i < |admitted| ensures admitted[i] != link {
      assert admitted[i] in Elems(admitted);
    }
  }

  /** The loop's state: `visited_urls`, the URLs in flight, `pages_scanned`, `all_emails`
      and `seen_emails`. */
  datatype CrawlState = CrawlState(visited: set<string>, inFlight: set<string>, pagesScanned: nat,
                                   allEmails: seq<Record>, seenEmails: set<string>)

  /** The invariants the loop keeps. */
  ghost predicate StateOk(startUrl: string, maxPages: nat, dedup: bool, st: CrawlState,
                          submitted: seq<string>)
  {
    && BudgetOk(maxPages, st.visited, st.inFlight, st.pagesScanned)
    && SubmissionsOk(startUrl, st.visited, submitted)
    && AggregatedOk(dedup, st.allEmails, st.seenEmails)
  }

  /** The body of the `for future in done` loop (app.py:132-171) for the future of `url`:
      its page is crawled, counted and merged, and its admitted links are submitted.
      `admitted` lists those in submission order. */
  method Visit(startUrl: string, base: string, maxPages: nat, dedup: bool, st: CrawlState,
               ghost submitted: seq<string>, url: string,
               fetch: string -> Response, resolve: (string, string) -> Option<Url>)
    returns (st': CrawlState, page: PageResult, ghost submitted': seq<string>,
             ghost admitted: seq<string>)
    requires StateOk(startUrl, maxPages, dedup, st, submitted) && url in st.inFlight
    ensures StateOk(startUrl, maxPages, dedup, st', submitted')
    ensures PageOf(fetch(url), resolve, page)
    ensures st'.pagesScanned == st.pagesScanned + 1
    ensures dedup ==> && st'.allEmails == st.allEmails + FreshRecords(st.seenEmails, page.data)
                      && st'.seenEmails == st.seenEmails + EmailsOf(page.data)
    ensures !dedup ==> st'.allEmails == st.allEmails + page.data && st'.seenEmails == st.seenEmails
    ensures st'.visited == st.visited + Elems(admitted)
    ensures st'.inFlight == st.inFlight - {url} + Elems(admitted)
    ensures Distinct(admitted) && Elems(admitted) <= Admissible(page.links, st.visited, InternalTo(base))
    ensures |st.visited| >= maxPages ==> admitted == []
    ensures |st'.visited| < maxPages && (forall l :: l in page.links ==> IsInternal(l, base).Some?) ==>
              Elems(admitted) == Admissible(page.links, st.visited, InternalTo(base))
    ensures page == Nothing ==>
              && st'.allEmails == st.allEmails && st'.seenEmails == st.seenEmails
              && admitted == [] && st'.visited == st.visited
  {
    page := CrawlPage(fetch(url), resolve);
    var visited, inFlight, pagesScanned;
    visited, inFlight, pagesScanned, submitted', admitted :=
      Advance(maxPages, startUrl, base, st.visited, st.inFlight, st.pagesScanned, submitted, url, page);
    var all, seen := Merge(dedup, st.allEmails, st.seenEmails, page.data);
    st' := CrawlState(visited, inFlight, pagesScanned, all, seen);
    ElemsEmpty(admitted);
  }

  /** A sequence without elements is empty. */
  lemma ElemsEmpty(s: seq<string>)
    ensures Elems(s) == {} ==> s == []
  {
    if s != [] {
      assert s[0] in Elems(s);
    }
  }

  /** The records `all_emails` holds after the pages in `pages` have been merged in this
      order (app.py:141-153): with deduplication each page adds the records whose addresses
      are new, without it each page adds all of its records. */
  function Aggregate(dedup: bool, pages: seq<PageResult>): seq<Record>
    decreases |pages|
  {
    if pages == [] then []
    else
      var prev := Aggregate(dedup, pages[..|pages| - 1]);
      var data := pages[|pages| - 1].data;
      prev + (if dedup then FreshRecords(EmailsOf(prev), data) else data)
  }

  /** The addresses found on the pages. */
  function AllEmails(pages: seq<PageResult>): set<string>
    decreases |pages|
  {
    if pages == [] then {} else AllEmails(pages[..|pages| - 1]) + EmailsOf(pages[|pages| - 1].data)
  }

  /** The links found on the pages. */
  function Found(pages: seq<PageResult>): set<string>
    decreases |pages|
  {
    if pages == [] then {} else Found(pages[..|pages| - 1]) + pages[|pages| - 1].links
  }

  /** One more page merged. */
  lemma AggregateStep(dedup: bool, pages: seq<PageResult>, page: PageResult)
    ensures var prev := Aggregate(dedup, pages);
            Aggregate(dedup, pages + [page]) ==
              prev + (if dedup then FreshRecords(EmailsOf(prev), page.data) else page.data)
    ensures AllEmails(pages + [page]) == AllEmails(pages) + EmailsOf(page.data)
    ensures Found(pages + [page]) == Found(pages) + page.links
  {
    assert (pages + [page])[..|pages|] == pages;
  }

  /** The records of the merged pages carry exactly the addresses found on them, with no
      address twice when deduplicating, and each record is one of some page's records. */
  lemma {:induction false} AggregateSound(dedup: bool, pages: seq<PageResult>)
    ensures EmailsOf(Aggregate(dedup, pages)) == AllEmails(pages)
    ensures dedup ==> DistinctEmails(Aggregate(dedup, pages))
    ensures forall r :: r in Aggregate(dedup, pages) ==>
              exists k :: 0 <= k < |pages| && r in pages[k].data
    decreases |pages|
  {
    if pages != [] {
      var init := pages[..|pages| - 1];
      var prev, data := Aggregate(dedup, init), pages[|pages| - 1].data;
      var added := if dedup then FreshRecords(EmailsOf(prev), data) else data;
      AggregateSound(dedup, init);
      EmailsOfAppend(prev, added);
      if dedup {
        FreshRecordsSound(EmailsOf(prev), data);
        AppendDistinct(prev, added);
      }
      forall r | r in Aggregate(dedup, pages) ensures exists k :: 0 <= k < |pages| && r in pages[k].data {
        if r in prev {
          var k :| 0 <= k < |init| && r in init[k].data;
          assert pages[k] == init[k];
        } else {
          assert r in added;
          assert r in pages[|pages| - 1].data;
        }
      }
    }
  }

  /** Two record lists with distinct addresses and no address in common concatenate to one. */
  lemma AppendDistinct(a: seq<Record>, b: seq<Record>)
    requires DistinctEmails(a) && DistinctEmails(b) && EmailsOf(a) !! EmailsOf(b)
    ensures DistinctEmails(a + b)
  {
    forall i, j | 0 <= i < j < |a + b| ensures (a + b)[i].email != (a + b)[j].email {
      if j < |a| {
        assert (a + b)[i] == a[i] && (a + b)[j] == a[j];
      } else if i >= |a| {
        assert (a + b)[i] == b[i - |a|] && (a + b)[j] == b[j - |a|];
      } else {
        assert (a + b)[i] == a[i] && (a + b)[j] == b[j - |a|];
        assert a[i].email in EmailsOf(a) && b[j - |a|].email in EmailsOf(b);
      }
    }
  }

  /** Where the records of a crawl come from: every record carries an address of the text of
      one of the scanned pages, which was fetched, and that page's final URL. */
  lemma RecordsFromPages(dedup: bool, order: seq<string>, pages: seq<PageResult>,
                         fetch: string -> Response, resolve: (string, string) -> Option<Url>)
    requires ScanOk(order, pages, fetch, resolve)
    ensures forall r :: r in Aggregate(dedup, pages) ==>
              exists k :: 0 <= k < |order| && RecordFrom(r, fetch(order[k]))
  {
    AggregateSound(dedup, pages);
    forall r | r in Aggregate(dedup, pages)
      ensures exists k :: 0 <= k < |order| && RecordFrom(r, fetch(order[k]))
    {
      var k :| 0 <= k < |pages| && r in pages[k].data;
      RecordOfPage(r, fetch(order[k]), resolve, pages[k]);
    }
  }

  /** `r` was found on the page of the response `resp`. */
  predicate RecordFrom(r: Record, resp: Response) {
    resp.Response? && r.email in ExtractEmails(Normalize(resp.pageText)) && r.pageUrl == resp.finalUrl
  }

  lemma RecordOfPage(r: Record, resp: Response, resolve: (string, string) -> Option<Url>,
                     page: PageResult)
    requires PageOf(resp, resolve, page) && r in page.data
    ensures RecordFrom(r, resp)
  {
    assert r.email in EmailsOf(page.data);
  }

  /** The whole crawl (app.py:92-100, 120-185). `None` when the start URL is empty (the
      `st.stop()` of line 94) or `urlparse` raises on it. Otherwise the start URL is
      submitted, and the loop takes the completed futures one batch at a time until nothing
      is in flight or the budget is spent; by then every visited URL has been scanned exactly
      once, so the cancellation of lines 182-185 has nothing left to cancel. Which of the
      in-flight URLs complete together is chosen freely; `fetch` stands for the network.
      `pages` lists what `crawl_page` returned for each URL, in scan order. */
  method Crawl(startUrl: string, maxPages: nat, dedup: bool,
               fetch: string -> Response, resolve: (string, string) -> Option<Url>)
    returns (report: Option<Report>, ghost pages: seq<PageResult>)
    requires 1 <= maxPages
    ensures report.None? <==> startUrl == [] || SplitNetloc(startUrl).None?
    ensures report.Some? ==>
              && report.value.pagesScanned == |report.value.visited| <= maxPages
              && startUrl in report.value.visited
              && (forall u :: u in report.value.visited && u != startUrl ==>
                    IsInternal(u, SplitNetloc(startUrl).value) == Some(true))
              && report.value.visited <= {startUrl} + Found(pages)
              && Elems(report.value.scanOrder) == report.value.visited
              && Distinct(report.value.scanOrder)
              && ScanOk(report.value.scanOrder, pages, fetch, resolve)
              && report.value.records == Aggregate(dedup, pages)
              && EmailsOf(report.value.records) == AllEmails(pages)
              && (dedup ==> DistinctEmails(report.value.records))
              && (forall r :: r in report.value.records ==>
                    exists k :: 0 <= k < |report.value.scanOrder| &&
                                RecordFrom(r, fetch(report.value.scanOrder[k])))
              && FollowOk(SplitNetloc(startUrl).value, maxPages, report.value.visited, pages)
              && |report.value.scanOrder| > 0 && report.value.scanOrder[0] == startUrl
              && (forall k :: 0 < k < |report.value.scanOrder| ==>
                    report.value.scanOrder[k] in Found(pages[..k]))
  {
    pages := [];
    if startUrl == [] {
      return None, pages;
    }
    var base := SplitNetloc(startUrl);
    if base.None? {
      return None, pages;
    }
    var st := CrawlState({startUrl}, {startUrl}, 0, [], {});
    ghost var submitted := [startUrl];
    assert Elems(submitted) == {startUrl} by {
      assert forall y :: y in submitted <==> y == startUrl;
    }
    var order: seq<string> := [];
    while st.inFlight != {} && st.pagesScanned < maxPages
      invariant LoopOk(startUrl, base.value, maxPages, dedup, fetch, resolve, st, submitted, order, pages)
      decreases maxPages - st.pagesScanned
    {
      var done: set<string> :| done <= st.inFlight && done != {};
      st, submitted, order, pages :=
        ScanBatch(startUrl, base.value, maxPages, dedup, fetch, resolve, done, st, submitted, order, pages);
    }
    CrawlDone(startUrl, base.value, maxPages, dedup, fetch, resolve, st, submitted, order, pages);
    report := Some(Report(st.pagesScanned, st.allEmails, st.visited, order));
  }

  /** The invariants of the crawl loop: those of the state, the reach of the crawl, and
      what the scanned pages gave. */
  ghost predicate LoopOk(startUrl: string, base: string, maxPages: nat, dedup: bool,
                         fetch: string -> Response, resolve: (string, string) -> Option<Url>,
                         st: CrawlState, submitted: seq<string>, order: seq<string>,
                         pages: seq<PageResult>)
  {
    && StateOk(startUrl, maxPages, dedup, st, submitted)
    && ReachOk(startUrl, base, st.visited, pages)
    && FollowOk(base, maxPages, st.visited, pages)
    && ScannedOk(dedup, fetch, resolve, st, order, pages)
    && OrderOk(startUrl, order, pages)
  }

  /** The start URL is scanned first, and every URL scanned after it was a link of a page
      scanned before it: a URL is only submitted from a page that has completed. */
  ghost predicate OrderOk(startUrl: string, order: seq<string>, pages: seq<PageResult>) {
    && |pages| == |order|
    && (|order| > 0 ==> order[0] == startUrl)
    && forall k :: 0 < k < |order| ==> order[k] in Found(pages[..k])
  }

  /** The next URL to complete is the start URL when nothing has been scanned yet, and
      a link of a scanned page otherwise. */
  lemma NextFound(startUrl: string, visited: set<string>, inFlight: set<string>,
                  order: seq<string>, pages: seq<PageResult>, u: string)
    requires visited <= {startUrl} + Found(pages)
    requires Elems(order) == visited - inFlight
    requires OrderOk(startUrl, order, pages)
    requires u in inFlight && inFlight <= visited
    ensures |order| == 0 ==> u == startUrl
    ensures |order| > 0 ==> u in Found(pages)
  {
    if |order| > 0 {
      assert order[0] in Elems(order);
    }
  }

  /** Scanning the next URL keeps the order of the scan. */
  lemma OrderStep(startUrl: string, order: seq<string>, pages: seq<PageResult>, u: string,
                  page: PageResult)
    requires OrderOk(startUrl, order, pages)
    requires |order| == 0 ==> u == startUrl
    requires |order| > 0 ==> u in Found(pages)
    ensures OrderOk(startUrl, order + [u], pages + [page])
  {
    var order', pages' := order + [u], pages + [page];
    assert pages'[..|pages|] == pages;
    forall k | 0 < k < |order'| ensures order'[k] in Found(pages'[..k]) {
      if k < |order| {
        assert pages'[..k] == pages[..k];
        assert order'[k] == order[k];
      }
    }
  }

  /** The link test does not raise on any of `links`. */
  predicate LinksParse(links: set<string>, base: string) {
    forall l :: l in links ==> IsInternal(l, base).Some?
  }

  /** The crawl follows the links it finds: while the visited set is below the budget,
      every internal link of a scanned page on whose links the link test does not raise
      has been visited. */
  ghost predicate FollowOk(base: string, maxPages: nat, visited: set<string>,
                           pages: seq<PageResult>)
  {
    |visited| < maxPages ==>
      forall k, l ::
        (0 <= k < |pages| && LinksParse(pages[k].links, base) &&
         l in pages[k].links && IsInternal(l, base) == Some(true)) ==> l in visited
  }

  /** One completion keeps the links followed: the visited set only grows, so if it is
      below the budget now it was before, and then all the page's new internal links were
      admitted. */
  lemma FollowStep(base: string, maxPages: nat, visited: set<string>, pages: seq<PageResult>,
                   page: PageResult, admitted: seq<string>)
    requires FollowOk(base, maxPages, visited, pages)
    requires (|visited + Elems(admitted)| < maxPages &&
              forall l :: l in page.links ==> IsInternal(l, base).Some?) ==>
               Elems(admitted) == Admissible(page.links, visited, InternalTo(base))
    ensures FollowOk(base, maxPages, visited + Elems(admitted), pages + [page])
  {
    var visited' := visited + Elems(admitted);
    if |visited'| < maxPages {
      assert |visited| <= |visited'| by {
        assert visited <= visited';
        SubsetCard(visited, visited');
      }
      forall k, l | 0 <= k < |pages + [page]| && LinksParse((pages + [page])[k].links, base) &&
                    l in (pages + [page])[k].links && IsInternal(l, base) == Some(true)
        ensures l in visited'
      {
        if k < |pages| {
          assert (pages + [page])[k] == pages[k];
        } else if l !in visited {
          assert l in Admissible(page.links, visited, InternalTo(base));
        }
      }
    }
  }

  lemma SubsetCard(a: set<string>, b: set<string>)
    requires a <= b
    ensures |a| <= |b|
  {
    assert b == a + (b - a);
  }

  /** Every visited URL other than the start URL is internal and was found on a scanned
      page. */
  ghost predicate ReachOk(startUrl: string, base: string, visited: set<string>,
                          pages: seq<PageResult>)
  {
    && (forall u :: u in visited && u != startUrl ==> IsInternal(u, base) == Some(true))
    && visited <= {startUrl} + Found(pages)
  }

  /** The scan order lists the visited URLs no longer in flight, `pages` holds what
      `crawl_page` returned for each of them, and `all_emails` is their merge. */
  ghost predicate ScannedOk(dedup: bool, fetch: string -> Response,
                            resolve: (string, string) -> Option<Url>, st: CrawlState,
                            order: seq<string>, pages: seq<PageResult>)
  {
    && Elems(order) == st.visited - st.inFlight && |order| == st.pagesScanned
    && ScanOk(order, pages, fetch, resolve) && st.allEmails == Aggregate(dedup, pages)
  }

  /** When the loop stops, nothing is in flight, every visited URL has been scanned once,
      and the records are the merge of the scanned pages. */
  lemma CrawlDone(startUrl: string, base: string, maxPages: nat, dedup: bool,
                  fetch: string -> Response, resolve: (string, string) -> Option<Url>,
                  st: CrawlState, submitted: seq<string>, order: seq<string>,
                  pages: seq<PageResult>)
    requires LoopOk(startUrl, base, maxPages, dedup, fetch, resolve, st, submitted, order, pages)
    requires st.inFlight == {} || st.pagesScanned >= maxPages
    ensures st.inFlight == {}
    ensures st.pagesScanned == |st.visited| <= maxPages && startUrl in st.visited
    ensures forall u :: u in st.visited && u != startUrl ==> IsInternal(u, base) == Some(true)
    ensures st.visited <= {startUrl} + Found(pages)
    ensures Elems(order) == st.visited && Distinct(order)
    ensures ScanOk(order, pages, fetch, resolve) && st.allEmails == Aggregate(dedup, pages)
    ensures EmailsOf(st.allEmails) == AllEmails(pages)
    ensures dedup ==> DistinctEmails(st.allEmails)
    ensures forall r :: r in st.allEmails ==>
              exists k :: 0 <= k < |order| && RecordFrom(r, fetch(order[k]))
    ensures FollowOk(base, maxPages, st.visited, pages)
    ensures |order| > 0 && order[0] == startUrl
    ensures forall k :: 0 < k < |order| ==> order[k] in Found(pages[..k])
  {
    assert submitted[0] in Elems(submitted);
    DoneBudget(maxPages, st, order);
    DoneRecords(dedup, order, pages, fetch, resolve, st.allEmails);
  }

  /** When the loop stops, the budget leaves nothing in flight, so the scan order lists
      every visited URL once. */
  lemma DoneBudget(maxPages: nat, st: CrawlState, order: seq<string>)
    requires BudgetOk(maxPages, st.visited, st.inFlight, st.pagesScanned)
    requires Elems(order) == st.visited - st.inFlight && |order| == st.pagesScanned
    requires st.inFlight == {} || st.pagesScanned >= maxPages
    ensures st.inFlight == {} && st.pagesScanned == |st.visited| <= maxPages
    ensures Elems(order) == st.visited && Distinct(order)
  {
    ElemsCard(order);
  }

  /** The records of a finished crawl: what `Aggregate` says of the merge, for the merge
      the crawl state holds. */
  lemma DoneRecords(dedup: bool, order: seq<string>, pages: seq<PageResult>,
                    fetch: string -> Response, resolve: (string, string) -> Option<Url>,
                    allEmails: seq<Record>)
    requires ScanOk(order, pages, fetch, resolve) && allEmails == Aggregate(dedup, pages)
    ensures EmailsOf(allEmails) == AllEmails(pages)
    ensures dedup ==> DistinctEmails(allEmails)
    ensures forall r :: r in allEmails ==>
              exists k :: 0 <= k < |order| && RecordFrom(r, fetch(order[k]))
  {
    AggregateSound(dedup, pages);
    RecordsFromPages(dedup, order, pages, fetch, resolve);
  }

  /** The `for future in done` loop (app.py:132-171) over one batch of completed futures. */
  method ScanBatch(startUrl: string, base: string, maxPages: nat, dedup: bool,
                   fetch: string -> Response, resolve: (string, string) -> Option<Url>,
                   done: set<string>, st: CrawlState, ghost submitted: seq<string>,
                   order: seq<string>, ghost pages: seq<PageResult>)
    returns (st': CrawlState, ghost submitted': seq<string>, order': seq<string>,
             ghost pages': seq<PageResult>)
    requires LoopOk(startUrl, base, maxPages, dedup, fetch, resolve, st, submitted, order, pages)
    requires done <= st.inFlight
    ensures LoopOk(startUrl, base, maxPages, dedup, fetch, resolve, st', submitted', order', pages')
    ensures st'.pagesScanned == st.pagesScanned + |done|
    ensures Extends(order, order', done)
  {
    st', submitted', order', pages' := st, submitted, order, pages;
    var left := done;
    ExtendsStart(order, done);
    while left != {}
      invariant LoopOk(startUrl, base, maxPages, dedup, fetch, resolve, st', submitted', order', pages')
      invariant left <= st'.inFlight && st'.pagesScanned + |left| == st.pagesScanned + |done|
      invariant left <= done && Extends(order, order', done - left)
      decreases |left|
    {
      var u :| u in left;
      ExtendsStep(order, order', done, left, u);
      st', submitted', order', pages' :=
        ScanOne(startUrl, base, maxPages, dedup, fetch, resolve, u, st', submitted', order', pages');
      left := left - {u};
    }
  }

  /** `longer` is `order` followed by the URLs of `added`, each once. */
  ghost predicate Extends(order: seq<string>, longer: seq<string>, added: set<string>) {
    |order| <= |longer| && longer[..|order|] == order && Elems(longer[|order|..]) == added
  }

  lemma ExtendsStart(order: seq<string>, done: set<string>)
    ensures Extends(order, order, done - done)
  {
    assert order[|order|..] == [];
  }

  /** Scanning one more URL of the batch extends the scan order by it. */
  lemma ExtendsStep(order: seq<string>, prev: seq<string>, done: set<string>,
                    left: set<string>, u: string)
    requires left <= done && u in left && Extends(order, prev, done - left)
    ensures Extends(order, prev + [u], done - (left - {u}))
  {
    assert (prev + [u])[..|order|] == prev[..|order|];
    assert (prev + [u])[|order|..] == prev[|order|..] + [u];
    ElemsAppend(prev[|order|..], u);
  }

  /** One completed future of the batch: `Visit`, with the scan order and the page results
      extended by it. */
  method ScanOne(startUrl: string, base: string, maxPages: nat, dedup: bool,
                 fetch: string -> Response, resolve: (string, string) -> Option<Url>,
                 u: string, st: CrawlState, ghost submitted: seq<string>,
                 order: seq<string>, ghost pages: seq<PageResult>)
    returns (st': CrawlState, ghost submitted': seq<string>, order': seq<string>,
             ghost pages': seq<PageResult>)
    requires LoopOk(startUrl, base, maxPages, dedup, fetch, resolve, st, submitted, order, pages)
    requires u in st.inFlight
    ensures LoopOk(startUrl, base, maxPages, dedup, fetch, resolve, st', submitted', order', pages')
    ensures st'.pagesScanned == st.pagesScanned + 1 && st.inFlight - {u} <= st'.inFlight
    ensures order' == order + [u] && |pages'| == |pages| + 1 && pages'[..|pages|] == pages
  {
    var page;
    ghost var admitted;
    st', page, submitted', admitted := Visit(startUrl, base, maxPages, dedup, st, submitted, u, fetch, resolve);
    NextFound(startUrl, st.visited, st.inFlight, order, pages, u);
    OrderStep(startUrl, order, pages, u, page);
    ReachStep(startUrl, base, st.visited, pages, page, admitted);
    FollowStep(base, maxPages, st.visited, pages, page, admitted);
    ScannedStep(dedup, fetch, resolve, st, order, pages, u, page, st', admitted);
    order', pages' := order + [u], pages + [page];
  }

  /** The links admitted from a page keep the reach of the crawl. */
  lemma ReachStep(startUrl: string, base: string, visited: set<string>, pages: seq<PageResult>,
                  page: PageResult, admitted: seq<string>)
    requires ReachOk(startUrl, base, visited, pages)
    requires Elems(admitted) <= Admissible(page.links, visited, InternalTo(base))
    ensures ReachOk(startUrl, base, visited + Elems(admitted), pages + [page])
  {
    AggregateStep(false, pages, page);
    forall u | u in Elems(admitted) ensures IsInternal(u, base) == Some(true) && u in page.links {
      assert u in Admissible(page.links, visited, InternalTo(base));
    }
  }

  /** One completion extends the scan order, the pages and the merge by one. */
  lemma ScannedStep(dedup: bool, fetch: string -> Response,
                    resolve: (string, string) -> Option<Url>, st: CrawlState,
                    order: seq<string>, pages: seq<PageResult>, u: string, page: PageResult,
                    st': CrawlState, admitted: seq<string>)
    requires ScannedOk(dedup, fetch, resolve, st, order, pages)
    requires u in st.inFlight && st.inFlight <= st.visited && Elems(admitted) !! st.visited
    requires AggregatedOk(dedup, st.allEmails, st.seenEmails)
    requires PageOf(fetch(u), resolve, page)
    requires st'.pagesScanned == st.pagesScanned + 1
    requires dedup ==> st'.allEmails == st.allEmails + FreshRecords(st.seenEmails, page.data)
    requires !dedup ==> st'.allEmails == st.allEmails + page.data
    requires st'.visited == st.visited + Elems(admitted)
    requires st'.inFlight == st.inFlight - {u} + Elems(admitted)
    ensures ScannedOk(dedup, fetch, resolve, st', order + [u], pages + [page])
  {
    ScanStep(order, u, st.visited, st.inFlight, admitted);
    AggregateStep(dedup, pages, page);
    ScanOkStep(order, pages, fetch, resolve, u, page);
  }

  /** `pages[k]` is what `crawl_page` returned for the `k`-th URL scanned. */
  ghost predicate ScanOk(order: seq<string>, pages: seq<PageResult>, fetch: string -> Response,
                         resolve: (string, string) -> Option<Url>)
  {
    |pages| == |order| && forall k :: 0 <= k < |pages| ==> PageOf(fetch(order[k]), resolve, pages[k])
  }

  lemma ScanOkStep(order: seq<string>, pages: seq<PageResult>, fetch: string -> Response,
                   resolve: (string, string) -> Option<Url>, u: string, page: PageResult)
    requires ScanOk(order, pages, fetch, resolve) && PageOf(fetch(u), resolve, page)
    ensures ScanOk(order + [u], pages + [page], fetch, resolve)
  {
    assert forall k :: 0 <= k < |pages| ==> (order + [u])[k] == order[k] && (pages + [page])[k] == pages[k];
  }

  /** Scanning one more in-flight URL extends the scan order by it. */
  lemma ScanStep(order: seq<string>, u: string, visited: set<string>, inFlight: set<string>,
                 admitted: seq<string>)
    requires Elems(order) == visited - inFlight && u in inFlight && inFlight <= visited
    requires Elems(admitted) !! visited
    ensures Elems(order + [u]) == (visited + Elems(admitted)) - (inFlight - {u} + Elems(admitted))
  {
    ElemsAppend(order, u);
  }
}
