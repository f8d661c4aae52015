/** The link helpers: the canonical link built in `crawl_page` (app.py:62-65) and
    `is_internal_link` (app.py:32-34), which re-splits a link string with `urlparse` and
    compares its network location with the start host. */
module Links {
  import opened Chars
  import opened Wrappers

  /** A resolved reference split into the five components of section 3 of RFC 3986, as
      `urlparse` names them (the `netloc` is the authority). */
  datatype Url = Url(scheme: string, netloc: string, path: string, query: string, fragment: string)

  /** The canonical link of app.py:64: `scheme + "://" + netloc + path`; the query and the
      fragment are dropped. */
  function CleanLink(u: Url): string {
    u.scheme + "://" + u.netloc + u.path
  }

  // ---------------------------------------------------------------------------
  // The part of `urlsplit` that yields the network location

  /** Position of the first `c` in `s`, or `|s|` (`str.find` with "not found" as `|s|`). */
  function Find(s: string, c: char): (i: nat)
    ensures i <= |s|
  {
    if s == [] || s[0] == c then 0 else 1 + Find(s[1..], c)
  }

  /** The characters that end a network location: `/`, `?` and `#`. */
  predicate IsDelim(c: char) { c == '/' || c == '?' || c == '#' }

  /** Position of the first delimiter in `s`, or `|s|` (`_splitnetloc`). */
  function FindDelim(s: string): (i: nat)
    ensures i <= |s|
  {
    if s == [] || IsDelim(s[0]) then 0 else 1 + FindDelim(s[1..])
  }

  /** `FindDelim` gives the first delimiter. */
  lemma {:induction false} FindDelimFirst(s: string)
    ensures forall j :: 0 <= j < FindDelim(s) ==> !IsDelim(s[j])
    ensures FindDelim(s) < |s| ==> IsDelim(s[FindDelim(s)])
  {
    if s != [] && !IsDelim(s[0]) {
      FindDelimFirst(s[1..]);
    }
  }

  /** `scheme_chars`: ASCII letters, digits, `+`, `-` and `.`. */
  predicate IsSchemeChar(c: char) {
    IsLetter(c) || IsDigit(c) || c == '+' || c == '-' || c == '.'
  }

  /** A C0 control character or space, stripped from the front of the link. */
  predicate IsC0OrSpace(c: char) { c as int <= 32 }

  /** The characters `urlsplit` deletes wherever they occur: tab, carriage return, newline. */
  predicate IsUnsafe(c: char) { c == '\t' || c == '\r' || c == '\n' }

  /** `url.lstrip` of C0 controls and space. */
  function StripLeading(s: string): string {
    if s != [] && IsC0OrSpace(s[0]) then StripLeading(s[1..]) else s
  }

  /** `url.replace(b, "")` for each of tab, carriage return and newline. */
  function RemoveUnsafe(s: string): string {
    if s == [] then []
    else if IsUnsafe(s[0]) then RemoveUnsafe(s[1..])
    else [s[0]] + RemoveUnsafe(s[1..])
  }

  /** `RemoveUnsafe` leaves no tab, carriage return or newline. */
  lemma {:induction false} RemoveUnsafeClean(s: string)
    ensures forall j :: 0 <= j < |RemoveUnsafe(s)| ==> !IsUnsafe(RemoveUnsafe(s)[j])
  {
    if s != [] {
      RemoveUnsafeClean(s[1..]);
      if !IsUnsafe(s[0]) {
        var t := RemoveUnsafe(s[1..]);
        assert forall j :: 1 <= j < |[s[0]] + t| ==> ([s[0]] + t)[j] == t[j - 1];
      }
    }
  }

  /** Every character of `s` is a scheme character. */
  predicate AllSchemeChars(s: string) {
    s == [] || (IsSchemeChar(s[0]) && AllSchemeChars(s[1..]))
  }

  /** What follows the scheme: the text after the first `:` when everything before it is a
      scheme starting with an ASCII letter, otherwise the whole text. */
  function AfterScheme(url: string): string {
    var i := Find(url, ':');
    if 0 < i < |url| && IsLetter(url[0]) && AllSchemeChars(url[..i]) then url[i + 1..] else url
  }

  /** `urlparse(link).netloc`; `None` where `urlsplit` raises `ValueError` because the
      network location has one square bracket without the other. */
  function SplitNetloc(link: string): Option<string> {
    var rest := AfterScheme(RemoveUnsafe(StripLeading(link)));
    if |rest| >= 2 && rest[0] == '/' && rest[1] == '/' then
      var tail := rest[2..];
      var n := tail[..FindDelim(tail)];
      if ('[' in n) != (']' in n) then None else Some(n)
    else Some([])
  }

  /** The network location `urlparse` gives holds no delimiter and no tab, carriage return
      or newline, and its square brackets are paired. */
  lemma SplitNetlocShape(link: string)
    ensures SplitNetloc(link).Some? ==>
              && (forall j :: 0 <= j < |SplitNetloc(link).value| ==>
                    !IsDelim(SplitNetloc(link).value[j]) && !IsUnsafe(SplitNetloc(link).value[j]))
              && ('[' in SplitNetloc(link).value) == (']' in SplitNetloc(link).value)
  {
    var r := RemoveUnsafe(StripLeading(link));
    var rest := AfterScheme(r);
    if |rest| >= 2 && rest[0] == '/' && rest[1] == '/' {
      var tail := rest[2..];
      var n := tail[..FindDelim(tail)];
      RemoveUnsafeClean(StripLeading(link));
      FindDelimFirst(tail);
      assert rest == r || rest == r[Find(r, ':') + 1..];
      forall j | 0 <= j < |n| ensures !IsDelim(n[j]) && !IsUnsafe(n[j]) {
        assert n[j] == tail[j] == rest[j + 2];
        if rest != r {
          assert rest[j + 2] == r[Find(r, ':') + 1 + j + 2];
        }
      }
    }
  }

  /** `is_internal_link(link, base_domain)`; `None` where `urlparse` raises. */
  function IsInternal(link: string, base: string): Option<bool> {
    match SplitNetloc(link)
    case None => None
    case Some(n) => Some(n == [] || n == base)
  }

  // ---------------------------------------------------------------------------
  // Canonical links, split again

  /** What the lemmas below assume of a URL that `resolve` returns: the scheme is made of
      scheme characters and starts with a letter, the network location holds no delimiter
      and its square brackets are paired, the path is empty or starts with `/`, and
      nothing holds a tab, carriage return or newline. A resolved `http` or `https` anchor
      with a host satisfies it, but not every result of `urlparse` does: `mailto:x@y.com`
      gives the scheme `mailto`, the network location "" and the path `x@y.com`, whose
      canonical link `mailto://x@y.com` parses again with the network location `x@y.com`.
      `OpaqueLink` covers every URL without a network location. */
  predicate WellFormed(u: Url) {
    && IsScheme(u.scheme)
    && (forall j :: 0 <= j < |u.netloc| ==> !IsDelim(u.netloc[j]) && !IsUnsafe(u.netloc[j]))
    && ('[' in u.netloc) == (']' in u.netloc)
    && (u.path == [] || u.path[0] == '/')
    && (forall j :: 0 <= j < |u.path| ==> !IsUnsafe(u.path[j]))
  }

  lemma {:induction false} RemoveUnsafeKeeps(s: string)
    requires forall j :: 0 <= j < |s| ==> !IsUnsafe(s[j])
    ensures RemoveUnsafe(s) == s
  {
    if s != [] {
      RemoveUnsafeKeeps(s[1..]);
    }
  }

  lemma {:induction false} FindAfter(x: string, y: string, c: char)
    requires forall j :: 0 <= j < |x| ==> x[j] != c
    requires y != [] && y[0] == c
    ensures Find(x + y, c) == |x|
  {
    if x != [] {
      assert (x + y)[1..] == x[1..] + y;
      FindAfter(x[1..], y, c);
    }
  }

  lemma {:induction false} FindDelimAfter(x: string, y: string)
    requires forall j :: 0 <= j < |x| ==> !IsDelim(x[j])
    requires y == [] || IsDelim(y[0])
    ensures FindDelim(x + y) == |x|
  {
    if x != [] {
      assert (x + y)[1..] == x[1..] + y;
      FindDelimAfter(x[1..], y);
    } else {
      assert x + y == y;
    }
  }

  /** A scheme as `urlsplit` recognises one: a letter, then scheme characters. */
  predicate IsScheme(scheme: string) {
    |scheme| > 0 && IsLetter(scheme[0]) &&
    forall j :: 0 <= j < |scheme| ==> IsSchemeChar(scheme[j])
  }

  lemma {:induction false} SchemeCharsAll(s: string)
    requires forall j :: 0 <= j < |s| ==> IsSchemeChar(s[j])
    ensures AllSchemeChars(s)
  {
    if s != [] {
      SchemeCharsAll(s[1..]);
    }
  }

  lemma SchemeNoColon(scheme: string)
    requires IsScheme(scheme)
    ensures forall j :: 0 <= j < |scheme| ==> scheme[j] != ':'
  {
    forall j | 0 <= j < |scheme| ensures scheme[j] != ':' {
      assert IsSchemeChar(scheme[j]);
    }
  }

  lemma AfterSchemeOf(scheme: string, after: string)
    requires IsScheme(scheme)
    ensures AfterScheme(scheme + (":" + after)) == after
  {
    var url := scheme + (":" + after);
    SchemeNoColon(scheme);
    FindAfter(scheme, ":" + after, ':');
    assert url[|scheme| + 1..] == after;
    assert url[..|scheme|] == scheme;
    SchemeCharsAll(scheme);
  }

  lemma NoUnsafeLink(u: Url)
    requires WellFormed(u)
    ensures RemoveUnsafe(CleanLink(u)) == CleanLink(u)
  {
    var link := CleanLink(u);
    forall j | 0 <= j < |link| ensures !IsUnsafe(link[j]) {
      if j < |u.scheme| {
        assert link[j] == u.scheme[j];
      } else if j >= |u.scheme| + 3 + |u.netloc| {
        assert link[j] == u.path[j - |u.scheme| - 3 - |u.netloc|];
      } else if j >= |u.scheme| + 3 {
        assert link[j] == u.netloc[j - |u.scheme| - 3];
      }
    }
    RemoveUnsafeKeeps(link);
  }

  /** The network location read after `//`. */
  lemma NetlocAfterSlashes(netloc: string, path: string)
    requires forall j :: 0 <= j < |netloc| ==> !IsDelim(netloc[j])
    requires path == [] || path[0] == '/'
    requires ('[' in netloc) == (']' in netloc)
    ensures var rest := "//" + (netloc + path);
            && |rest| >= 2 && rest[0] == '/' && rest[1] == '/'
            && rest[2..][..FindDelim(rest[2..])] == netloc
  {
    var tail := netloc + path;
    assert ("//" + tail)[2..] == tail;
    FindDelimAfter(netloc, path);
    assert tail[..|netloc|] == netloc;
  }

  /** Splitting a canonical link again gives back the network location it was built from. */
  lemma SplitCleanLink(u: Url)
    requires WellFormed(u)
    ensures SplitNetloc(CleanLink(u)) == Some(u.netloc)
  {
    var link := CleanLink(u);
    var after := "//" + (u.netloc + u.path);
    assert link == u.scheme + (":" + after);
    assert StripLeading(link) == link by {
      assert link[0] == u.scheme[0];
    }
    NoUnsafeLink(u);
    AfterSchemeOf(u.scheme, after);
    NetlocAfterSlashes(u.netloc, u.path);
  }

  /** A canonical link is internal exactly when its network location is empty or equals the
      start host; no scheme, port or subdomain is taken into account. */
  lemma InternalCleanLink(u: Url, base: string)
    requires WellFormed(u)
    ensures IsInternal(CleanLink(u), base) == Some(u.netloc == [] || u.netloc == base)
  {
    SplitCleanLink(u);
  }

  /** Removing tabs, carriage returns and newlines from `x + y` leaves `x` alone when it
      holds none. */
  lemma {:induction false} RemoveUnsafeAppend(x: string, y: string)
    requires forall j :: 0 <= j < |x| ==> !IsUnsafe(x[j])
    ensures RemoveUnsafe(x + y) == x + RemoveUnsafe(y)
  {
    if x != [] {
      assert (x + y)[1..] == x[1..] + y;
      RemoveUnsafeAppend(x[1..], y);
    } else {
      assert x + y == y;
    }
  }

  /** The network location `urlparse` reads from the canonical link of a URL that has no
      network location of its own: the text after `://` is the path, so the path's prefix
      before its first `/`, `?` or `#` (tabs, carriage returns and newlines deleted first)
      is read as the network location, and `urlsplit` raises when that prefix has one
      square bracket without the other. */
  function OpaqueNetloc(path: string): Option<string> {
    var p := RemoveUnsafe(path);
    var n := p[..FindDelim(p)];
    if ('[' in n) != (']' in n) then None else Some(n)
  }

  /** A URL with a scheme and no network location is outside `WellFormed` unless its path
      is empty or starts with `/`. Its canonical link puts the path where the network
      location goes, so parsing it again reads the start of the path as the network
      location: `mailto:x@y.com` gives `x@y.com`, `data:text/html,hi` gives `text`, and a
      path starting with `/` gives "". The link counts as internal only when that prefix
      is empty or the start host. */
  lemma OpaqueLink(u: Url, base: string)
    requires IsScheme(u.scheme) && u.netloc == []
    ensures SplitNetloc(CleanLink(u)) == OpaqueNetloc(u.path)
    ensures IsInternal(CleanLink(u), base) ==
              match OpaqueNetloc(u.path)
              case None => None
              case Some(n) => Some(n == [] || n == base)
  {
    var p := RemoveUnsafe(u.path);
    OpaqueLinkText(u);
    AfterSchemeOf(u.scheme, "//" + p);
    assert ("//" + p)[2..] == p;
  }

  /** The canonical link of a URL without a network location, once `urlsplit` has stripped
      and cleaned it, is the scheme, `:`, `//` and the cleaned path. */
  lemma OpaqueLinkText(u: Url)
    requires IsScheme(u.scheme) && u.netloc == []
    ensures RemoveUnsafe(StripLeading(CleanLink(u))) ==
              u.scheme + (":" + ("//" + RemoveUnsafe(u.path)))
  {
    var link := CleanLink(u);
    var head := u.scheme + "://";
    assert link == head + u.path;
    assert StripLeading(link) == link by {
      assert link[0] == u.scheme[0];
    }
    forall j | 0 <= j < |head| ensures !IsUnsafe(head[j]) {
      if j < |u.scheme| {
        assert head[j] == u.scheme[j];
      }
    }
    RemoveUnsafeAppend(head, u.path);
  }

  /** Two well-formed URLs have the same canonical link exactly when they agree on scheme,
      network location and path: a difference in query or fragment alone is dropped. */
  lemma CleanLinkSame(u: Url, v: Url)
    requires WellFormed(u) && WellFormed(v)
    ensures CleanLink(u) == CleanLink(v) <==>
            u.scheme == v.scheme && u.netloc == v.netloc && u.path == v.path
  {
    if CleanLink(u) == CleanLink(v) {
      SchemeNoColon(u.scheme);
      SchemeNoColon(v.scheme);
      assert CleanLink(u) == u.scheme + ("://" + u.netloc + u.path);
      assert CleanLink(v) == v.scheme + ("://" + v.netloc + v.path);
      SplitAtFirst(u.scheme, "://" + u.netloc + u.path, v.scheme, "://" + v.netloc + v.path, ':');
      SplitCleanLink(u);
      SplitCleanLink(v);
      SameTail("://" + u.netloc, u.path, "://" + v.netloc, v.path);
    }
  }

  /** A string splits in one way only at the first occurrence of `c`. */
  lemma SplitAtFirst(x1: string, y1: string, x2: string, y2: string, c: char)
    requires forall j :: 0 <= j < |x1| ==> x1[j] != c
    requires forall j :: 0 <= j < |x2| ==> x2[j] != c
    requires y1 != [] && y1[0] == c && y2 != [] && y2[0] == c
    requires x1 + y1 == x2 + y2
    ensures x1 == x2 && y1 == y2
  {
    FindAfter(x1, y1, c);
    FindAfter(x2, y2, c);
    assert x1 == (x1 + y1)[..|x1|];
    assert x2 == (x2 + y2)[..|x2|];
    assert y1 == (x1 + y1)[|x1|..];
    assert y2 == (x2 + y2)[|x2|..];
  }

  lemma SameTail(x1: string, y1: string, x2: string, y2: string)
    requires x1 + y1 == x2 + y2 && |x1| == |x2|
    ensures y1 == y2
  {
    assert y1 == (x1 + y1)[|x1|..];
    assert y2 == (x2 + y2)[|x2|..];
  }
}
