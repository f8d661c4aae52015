# Email-Extractor crawl core in Dafny

This project models the core of a small website e-mail harvester, written in Python as one
file, `app.py`. The harvester starts from a seed URL and crawls the pages of the same host.
It fetches them in a thread pool and caps the number of pages scanned at a budget
(`max_pages`). On every page it extracts e-mail addresses, including spellings obfuscated
as `name [at] host [dot] com`, and records each one with the URL and title of the page it
was found on.

The model follows the layout of the program:

| module | file | models |
|---|---|---|
| `Chars` | `chars.dfy` | ASCII classes: the `\s` of Python regular expressions, `str.lower` |
| `Normalizer` | `normalizer.dfy` | `OBFUSCATED_PATTERNS` and `normalize_text`; each `re.sub` is the left-to-right scan it performs |
| `Emails` | `emails.dfy` | `EMAIL_REGEX` and `extract_emails`; a scanner that does what `re.findall` does for this pattern, backtracking included |
| `Links` | `links.dfy` | the canonical link `scheme + "://" + netloc + path`, and `is_internal_link`, which gets the netloc back with the part of `urlsplit` that finds it |
| `Pages` | `pages.dfy` | `crawl_page`: the HTTP response and what the HTML parser finds in it are inputs, and `urljoin` + `urlparse` is a resolver function passed in |
| `Frontier` | `crawler.dfy` | the coordinating loop: visited set, in-flight set, page counter, budget guard, admission of links and merging of records |
| `Examples` | `examples.dfy` | two obfuscated addresses worked through `normalize_text` and `extract_emails` |

The thread pool comes in only through the order of completions. The loop picks a
non-empty subset of the in-flight URLs as the batch that `concurrent.futures.wait` returns.
It handles that batch as one `for future in done` loop. A function `fetch` stands for the
network, and `CrawlPage` turns its result into the page's records and links. An in-flight
future is named by its URL. This is sound because the model proves that no URL is
submitted twice.

Three behaviours of app.py are easy to misread; the model follows the code:
- A link that cannot be resolved does not drop just that link. `urljoin`/`urlparse` raise
  inside the `try` of `crawl_page` (app.py:39-70), so the whole page returns `([], [])`
  (`Pages.CrawlPage`, the `CleanLinks(...).None?` case).
- The budget is exact, not approximate. Admission stops as soon as `len(visited_urls)`
  reaches `max_pages` (app.py:170-171), and every visited URL is scanned at most once. So
  `pages_scanned + in-flight == |visited| <= max_pages` holds throughout. When the loop
  ends, nothing is in flight, so the cancellation at app.py:182-185 never has any work to
  drop (`Frontier.Crawl`).
- A `<title>` element whose `.string` is `None` makes `.strip()` raise (app.py:46), and
  the page is then empty too (`Pages.PageTitle`).

## Model

| member | source | states |
|---|---|---|
| Normalizer.Rewrite | app.py:26 | `re.sub(pattern, replacement, text)` for one rule: a left-to-right scan that replaces each match, greedy whitespace included, by the replacement character and keeps every other character; what this means is stated by `RewriteReplaces`, `RewriteReplacesWithin`, `RewriteAfterClean`, `RewriteIdentity` and `RewriteKeepsClean` |
| Normalizer.RewriteShorter | app.py:26 | a substitution never makes the text longer |
| Normalizer.ApplyAll | app.py:25-26 | the rules applied one after another in table order; the result is never longer than the input |
| Normalizer.Normalize | app.py:23-27 | `normalize_text`: lower-case, then the table; never longer than the input, and (`NormalizeClean`, `NormalizeIdempotent`) lower case, free of the six forms and a fixed point |
| Chars.Lower | app.py:24 | `str.lower` on ASCII: same length, no upper-case letter, each character lower-cased in place |
| Normalizer.ObfuscationsValid | app.py:14-21 | each of the six patterns has a non-empty token with no whitespace, `@` or `.` in it, and is replaced by `@` or `.` |
| Normalizer.NormalizeText | app.py:23-27 | the loop lower-cases the text and applies the six substitutions in table order; the result has no upper-case letter and contains none of the six obfuscated forms |
| Normalizer.RewriteReplaces | app.py:15-20 | at the start of the text, one substitution turns the token and all the whitespace around it into the single replacement character (`\s*` for the bracketed forms; at least one blank on each side for ` at ` / ` dot `) and carries on after it |
| Normalizer.RewriteReplacesWithin | app.py:15-20 | a token in the middle of the text, with the whitespace around it, becomes the replacement character; the text before it, in which the pattern does not occur, is kept as it is, and the scan goes on after the token |
| Normalizer.RewriteAfterClean | app.py:26 | a leading text in which no match starts, and which does not end in whitespace, is copied unchanged and the scan goes on after it |
| Normalizer.CleanByAbsent | app.py:15-20 | a pattern does not occur in text that lacks one of the characters of its token |
| Normalizer.RewriteKeepsClean | app.py:25-26 | after a substitution its own pattern no longer occurs, and a pattern that did not occur before does not occur after any substitution of the table |
| Normalizer.RewriteIdentity | app.py:26 | a substitution leaves text in which its pattern does not occur unchanged |
| Normalizer.RewriteNoUpper | app.py:26 | a substitution introduces no upper-case letter |
| Normalizer.ApplyAllCleans | app.py:25-26 | after the whole table, none of its patterns occurs |
| Normalizer.ApplyAllIdentity | app.py:25-26 | the table leaves text containing none of its patterns unchanged |
| Normalizer.NormalizeClean | app.py:23-27 | normalised text is lower case and free of the six obfuscated forms |
| Normalizer.NormalizeIdempotent | app.py:23-27 | normalising normalised text changes nothing |
| Chars.LowerOfLower | app.py:24 | lower-casing lower-case text changes nothing |
| Emails.MatchAt | app.py:12 | the end of the match of `EMAIL_REGEX` starting at a position, if any; a match is never empty and stays inside the text |
| Emails.FindAll | app.py:30 | `re.findall`: matches tried left to right, resuming after each; at most one match per character of the text |
| Emails.ExtractEmails | app.py:29-30 | `set(re.findall(...))`; its meaning is stated by `ExtractSound` and `ExtractNonEmpty` |
| Emails.DomainLenLast | app.py:12 | the greedy domain part backtracks to the last position followed by `.` and two or more letters, and the match fails when there is no such position |
| Emails.MatchIs | app.py:12 | a local part, `@`, and a domain run whose last `.` is followed by two or more letters up to the end of the run give a match that ends at the end of the run |
| Emails.NoMatchNoTld | app.py:12 | no match starts where the domain run after the `@` has no `.` in it |
| Emails.NoMatchNoAt | app.py:12 | no match starts where the local-part run is empty, reaches the end of the text, or is followed by a character other than `@` |
| Emails.FindAllSkips | app.py:30 | `findall` passes over positions at which no match starts |
| Emails.MatchShape | app.py:12 | every match the scanner finds has the shape local part, `@`, domain, `.`, a top-level domain of two or more letters |
| Emails.FindAllSound | app.py:30 | every string `findall` returns is a substring of the text with that shape |
| Emails.ExtractSound | app.py:29-30 | every extracted address has the shape of `EMAIL_REGEX` and occurs in the text |
| Emails.ExtractNonEmpty | app.py:29-30 | the extracted set is non-empty exactly when some substring of the text has that shape |
| Emails.NoAtNoEmails | app.py:29-30 | text with no `@` yields the empty set |
| Links.CleanLink | app.py:64 | `scheme + "://" + netloc + path`, query and fragment dropped; `SplitCleanLink`, `CleanLinkSame` and `OpaqueLink` state what parsing it again gives |
| Links.SplitNetloc | app.py:33 | `urlparse(link).netloc`, or `None` where `urlsplit` raises on unpaired brackets; `SplitNetlocShape` states its shape |
| Links.SplitNetlocShape | app.py:33 | the network location holds no `/`, `?` or `#`, no tab, carriage return or newline, and its square brackets are paired |
| Links.IsInternal | app.py:32-34 | `is_internal_link`: true exactly when the network location is empty or equals the start host, `None` where `urlparse` raises; `InternalCleanLink` and `OpaqueLink` apply it to canonical links |
| Links.SplitCleanLink | app.py:32-34 | for a URL that satisfies `WellFormed` (a path that is empty or starts with `/`), parsing the canonical link again gives back the network location it was built from |
| Links.InternalCleanLink | app.py:32-34 | for a URL that satisfies `WellFormed`, the canonical link is internal exactly when its network location is empty or equals the start host |
| Links.OpaqueLink | app.py:32-34 | for any URL with a scheme and no network location, parsing the canonical link again reads the path's prefix before its first `/`, `?` or `#` as the network location (`mailto:x@y.com` gives `x@y.com`, `data:text/html,hi` gives `text`), the link test raises when that prefix has unpaired square brackets, and the link is internal only when the prefix is empty or the start host |
| Links.CleanLinkSame | app.py:62-65 | two resolved URLs that satisfy `WellFormed` give the same canonical link exactly when scheme, network location and path agree; query and fragment are dropped |
| Pages.Strip | app.py:46 | `str.strip`: the result neither starts nor ends with whitespace (and `StripPadded` shows exactly the surrounding whitespace goes) |
| Pages.PageTitle | app.py:46 | the title is `"N/A"` without a `<title>` element, and reading it fails exactly when the element's `.string` is `None` |
| Pages.StripPadded | app.py:46 | `strip` removes exactly the whitespace around the title text |
| Pages.CleanLinks | app.py:60-65 | the links are defined exactly when every anchor resolves, and are then exactly the canonical links of the resolved anchors |
| Pages.ResolveLinks | app.py:60-65 | the loop over the anchors computes `CleanLinks` and stops at the first anchor that cannot be resolved |
| Pages.CleanLinksPrefix | app.py:60-70 | one anchor that cannot be resolved abandons the links of the whole page |
| Pages.BuildRecords | app.py:52-58 | one record per extracted address, with no address twice, each with the final URL and the page title |
| Pages.CrawlPage | app.py:38-70 | the result is `PageOf` the response: transport error, status other than 200, an unreadable title or an unresolvable anchor gives `([], [])`; otherwise the records hold exactly the addresses of the normalised page text with the final URL and the title (`"N/A"` when there is no title element), and the links are exactly the canonical links of the anchors |
| Frontier.FreshRecords | app.py:142-149 | the records the deduplicating merge appends, in page order; its meaning is stated by `FreshRecordsSound` and `FreshRecordsAllNew` |
| Frontier.FreshRecordsSound | app.py:142-149 | the records the deduplicating merge appends have distinct addresses, are exactly the page's addresses not seen before, and come from the page |
| Frontier.FreshRecordsAllNew | app.py:142-149 | a page whose addresses are distinct and all new is appended whole |
| Frontier.MergeFresh | app.py:142-149 | the merge loop appends `FreshRecords`, remembers every address of the page, and keeps the recorded addresses distinct and equal to `seen_emails` |
| Frontier.Merge | app.py:141-153 | with dedup on, the fresh records are appended and the recorded addresses stay distinct; with dedup off, the page's records are appended in order and `seen_emails` is untouched |
| Frontier.AdmitLinks | app.py:164-171 | only distinct links that are internal and not yet visited are submitted, the visited set never exceeds the budget, and every such link is submitted unless the budget is reached or the link test raises |
| Frontier.PopKeeps | app.py:133-134 | taking the completed URL out of flight and counting its page keeps the budget invariant |
| Frontier.SubmitAll | app.py:165-169 | submitting distinct unvisited links within the budget keeps both the budget invariant and the record of what was submitted (the start URL first, nothing twice) |
| Frontier.ElemsCard | app.py:165-169 | a list of submissions as long as the visited set it covers has no URL twice |
| Frontier.Advance | app.py:133-171 | the URL leaves the in-flight set, the page is counted, the visited set grows by the admitted links only, and nothing is admitted once `pages_scanned + in-flight` has reached the budget; the budget and no-resubmission invariants are kept |
| Frontier.Visit | app.py:132-171 | one completed future: the page is what `crawl_page` returns for the fetched response (nothing on a failed fetch); the URL leaves the in-flight set and is counted; the records grow by the fresh records (dedup on) or by all of the page's records (dedup off), and `seen_emails` by the page's addresses or not at all; the visited and in-flight sets grow by the admitted links only, which are distinct, internal and new, none once the visited set reaches the budget, and all of them unless the budget or the link test stops admission; the invariants are kept |
| Frontier.ScanBatch | app.py:132-171 | the `for future in done` loop over one batch keeps every crawl invariant (`LoopOk`), counts one page per future of the batch, and extends the scan order by exactly the URLs of the batch, each once (`Extends`) |
| Frontier.ExtendsStep | app.py:132-134 | scanning one more URL of the batch extends the scan order by that URL and keeps the earlier order as its prefix |
| Frontier.NextFound | app.py:126-134 | the URL being scanned is the start URL when nothing has been scanned yet, and a URL found on an earlier page otherwise |
| Frontier.OrderStep | app.py:164-169 | appending such a URL keeps the scan order rooted at the start URL, with each later URL found on a page scanned before it |
| Frontier.ScanOne | app.py:133-171 | one future of the batch: `Visit`, with the scan order and the list of page results extended by it, keeps every crawl invariant |
| Frontier.FollowStep | app.py:164-171 | while the visited set stays under the budget, every internal link of a scanned page on which the link test does not raise has been visited |
| Frontier.Crawl | app.py:92-185 | an empty or unparsable start URL gives no crawl; otherwise the pages scanned equal the number of visited URLs, which is at most `max_pages`; the start URL and internal links found on scanned pages only are visited; every visited URL is scanned exactly once; the records are the merge (`Aggregate`) of what `crawl_page` returned for the scanned pages in scan order, their addresses are exactly the addresses found on those pages, each record comes from the page it names, and with dedup on no address is recorded twice; when the crawl ends with fewer than `max_pages` visited URLs, every internal link of a scanned page on which the link test does not raise has been visited (`FollowOk`); the start URL is scanned first and every later URL was found on a page scanned before it |
| Frontier.CrawlDone | app.py:126-185 | when the loop stops nothing is in flight, every visited URL has been scanned once, the records are the merge of the scanned pages, each from one of them, and the links found under budget have been followed; the start URL was scanned first and every later URL was found on a page scanned before it |
| Frontier.Aggregate | app.py:141-153 | the merge of `all_emails` over the scanned pages in scan order; `AggregateStep`, `AggregateSound` and `RecordsFromPages` state its meaning |
| Frontier.AggregateSound | app.py:141-153 | the merged records carry exactly the addresses of the merged pages, none twice when deduplicating, and each is a record of one of the pages |
| Frontier.AggregateStep | app.py:141-153 | merging one more page appends its fresh records (dedup on) or all its records (dedup off), adds its addresses and its links |
| Frontier.RecordsFromPages | app.py:52-58 | every merged record carries an address found in the normalised text of a scanned page and that page's final URL |
| Frontier.DoneBudget | app.py:126 | when the loop condition fails, because nothing is in flight or the budget is spent, nothing is in flight and the scan order lists every visited URL exactly once |
| Frontier.ReachStep | app.py:164-169 | the links admitted from a page keep every visited URL other than the start URL internal and found on a scanned page |
| Frontier.ScannedStep | app.py:133-153 | a completion extends the scan order, the list of pages and the merge by one |
| Examples.NormalizeBracketed | app.py:23-27 | `foo [at] bar [dot] com` normalises to `foo@bar.com` |
| Examples.ExtractBracketed | app.py:23-30 | the addresses extracted from normalised `foo [at] bar [dot] com` are exactly `foo@bar.com` |
| Examples.NormalizeSpelledOut | app.py:23-27 | `contact us at foo [at] bar [dot] com` normalises to `contact us@foo@bar.com`: the spelled-out ` at ` is also replaced |
| Examples.ExtractSpelledOut | app.py:23-30 | `foo@bar.com` is extracted from normalised `contact us at foo [at] bar [dot] com`, and nothing else is |

## Left out

- The Streamlit interface (app.py:74-90, 102-114, 148, 152, 155-161, 176-180, 187 on, and
  the `new_data_found` flag of 149 and 153, which only decides whether 155-161 run): widgets,
  progress, metrics, live log and table, and the CSV export. They only display state.
- HTTP: `requests.Session`, headers, timeouts, the disabled TLS verification and the
  disabled warnings. `fetch` is an arbitrary function from URL to `Response`.
- `BeautifulSoup` is not modelled. A `Response` already carries the parser's title,
  `get_text(" ", strip=True)` and the list of `href` values.
- `urljoin` and the splitting of the resolved link are not modelled. `resolve` is a
  function passed in that returns the five components or raises (`None`);
  `Links.WellFormed` states what the lemmas assume about its output.
- `is_internal_link` models only the part of `urlsplit` that gives the network location:
  stripping leading C0 controls and spaces, deleting tab/CR/LF, the scheme, `//`, the
  delimiters `/?#`, and the unmatched-bracket `ValueError`. Newer Python versions also
  check bracketed IPv6 hosts, and raise `ValueError` when the NFKC form of a non-ASCII
  netloc contains one of `/?#@:` (it checks that form and normalises nothing); neither is
  modelled.
- Characters are ASCII only. `str.lower`, `str.strip` and regex `\s` are modelled on ASCII
  (for `\s`, characters 9-13, 28-32), not on Unicode.
- Threads, `concurrent.futures.wait` and timing are not modelled. The batch of completed
  futures is chosen freely. `cancel()` is not modelled because nothing is in flight when
  the loop ends (see above).
- The `except Exception: pass` of app.py:173-174. The `try` of app.py:138-174 also wraps
  the display calls `live_log.success`, `live_table.dataframe` and `metric_emails.metric`
  and `executor.submit`. The model assumes that none of these raises. The only call left
  that can raise is `urlparse` inside `is_internal_link`. That case is modelled as `None`
  from the link test, which ends admission for the page after the records have been
  merged.
- The order in which a Python set is iterated (the addresses on a page at app.py:53, the
  links at app.py:164) is a free choice in the model, so the records and submissions come
  out in some order rather than CPython's.
- Frontier.Crawl: the order of the records within one page is left open, as is the
  order of a Python set. The submission lists `submitted` and `admitted`, and the list of
  page results `pages`, are ghost bookkeeping for the proofs.
- Links.SplitCleanLink, Links.InternalCleanLink, Links.CleanLinkSame: these hold only for
  resolved URLs that satisfy `WellFormed`. For a URL with a scheme and no network location
  (`mailto:x@y.com`), `Links.OpaqueLink` states what parsing its canonical link gives
  instead. A URL with a network location and a non-empty path that does not start with
  `/`, or with a scheme `urlsplit` would not recognise, is covered by neither.
- Frontier.Crawl: requires `max_pages >= 1`. The slider at app.py:82 only offers 10 to
  500.
