/** The e-mail extractor `extract_emails` (app.py:12, 29-30): every non-overlapping match of
    `EMAIL_REGEX`, scanned from the left as `re.findall` does, collected into a set. */
module Emails {
  import opened Chars
  import opened Wrappers

  /** The three character classes of `EMAIL_REGEX`. */
  datatype Class = Local | Domain | Alpha

  /** `[a-zA-Z0-9._%+-]`, `[a-zA-Z0-9.-]` and `[a-zA-Z]`. */
  predicate InClass(k: Class, c: char) {
    match k
    case Local => IsLetter(c) || IsDigit(c) || c == '.' || c == '_' || c == '%' || c == '+' || c == '-'
    case Domain => IsLetter(c) || IsDigit(c) || c == '.' || c == '-'
    case Alpha => IsLetter(c)
  }

  /** Every character of `t[lo..hi]` is in class `k`. */
  predicate AllIn(k: Class, t: string, lo: nat, hi: nat)
    requires lo <= hi <= |t|
  {
    forall j :: lo <= j < hi ==> InClass(k, t[j])
  }

  /** Length of the longest run of class `k` starting at position `i` of `s`
      (what a greedy `[...]+` consumes). */
  function Span(k: Class, s: string, i: nat): (n: nat)
    requires i <= |s|
    ensures i + n <= |s|
    ensures AllIn(k, s, i, i + n)
    ensures i + n < |s| ==> !InClass(k, s[i + n])
    decreases |s| - i
  {
    if i < |s| && InClass(k, s[i]) then 1 + Span(k, s, i + 1) else 0
  }

  /** `\.[a-zA-Z]{2,}` matches at position `j`. */
  predicate TldAt(s: string, j: nat) {
    j < |s| && s[j] == '.' && Span(Alpha, s, j + 1) >= 2
  }

  /** The backtracking of the greedy domain part `[a-zA-Z0-9.-]+`: the longest domain of
      length at most `k`, counted from position `d`, that is followed by a top-level domain. */
  function DomainLen(s: string, d: nat, k: nat): (r: Option<nat>)
    requires d + k <= |s|
    ensures r.Some? ==> 1 <= r.value <= k && d + r.value < |s|
    decreases k
  {
    if k == 0 then None
    else if TldAt(s, d + k) then Some(k)
    else DomainLen(s, d, k - 1)
  }

  /** `DomainLen` finds the last position within reach that is followed by a top-level
      domain, and there is none when it gives `None`. */
  lemma {:induction false} DomainLenLast(s: string, d: nat, k: nat)
    requires d + k <= |s|
    ensures DomainLen(s, d, k).Some? ==> TldAt(s, d + DomainLen(s, d, k).value)
    ensures DomainLen(s, d, k).Some? ==>
              forall j :: d + DomainLen(s, d, k).value < j <= d + k ==> !TldAt(s, j)
    ensures DomainLen(s, d, k).None? ==> forall j :: d + 1 <= j <= d + k ==> !TldAt(s, j)
    decreases k
  {
    if k > 0 && !TldAt(s, d + k) {
      DomainLenLast(s, d, k - 1);
    }
  }

  /** The end of the match of `EMAIL_REGEX` that starts at position `i`, if there is one.
      The local part can only end at the first character outside its class, so it must
      be followed there by `@`. */
  function MatchAt(s: string, i: nat): (m: Option<nat>)
    requires i <= |s|
    ensures m.Some? ==> i < m.value <= |s|
  {
    var at := i + Span(Local, s, i);
    if at == i || at >= |s| || s[at] != '@' then None
    else
      var d := at + 1;
      match DomainLen(s, d, Span(Domain, s, d))
      case None => None
      case Some(k) => Some(d + k + 1 + Span(Alpha, s, d + k + 1))
  }

  /** `re.findall(EMAIL_REGEX, s[i..])`: try a match at each position; after a match,
      resume where it ended. */
  function FindAll(s: string, i: nat): (r: seq<string>)
    requires i <= |s|
    ensures |r| <= |s| - i
    decreases |s| - i
  {
    if i == |s| then []
    else
      match MatchAt(s, i)
      case None => FindAll(s, i + 1)
      case Some(e) => [s[i..e]] + FindAll(s, e)
  }

  /** `extract_emails`. */
  function ExtractEmails(text: string): set<string> {
    set e | e in FindAll(text, 0)
  }

  // ---------------------------------------------------------------------------
  // The shape of an address, stated independently of the scanner

  /** `w` splits as local part `w[..a]`, `@` at `a`, domain `w[a+1..b]`, `.` at `b` and a
      top-level domain `w[b+1..]` of at least two letters. */
  predicate IsEmailSplit(w: string, a: nat, b: nat) {
    && 0 < a && a + 1 < b && b + 2 < |w|
    && AllIn(Local, w, 0, a) && w[a] == '@'
    && AllIn(Domain, w, a + 1, b) && w[b] == '.'
    && AllIn(Alpha, w, b + 1, |w|)
  }

  /** The whole of `w` matches `EMAIL_REGEX`. */
  ghost predicate EmailShape(w: string) {
    exists a: nat, b: nat :: IsEmailSplit(w, a, b)
  }

  /** `IsEmailSplit` of a substring, restated on the positions of the whole string. */
  predicate SplitIn(s: string, p: nat, q: nat, a: nat, b: nat)
    requires p <= q <= |s|
  {
    && 0 < a && a + 1 < b && b + 2 < q - p
    && AllIn(Local, s, p, p + a) && s[p + a] == '@'
    && AllIn(Domain, s, p + a + 1, p + b) && s[p + b] == '.'
    && AllIn(Alpha, s, p + b + 1, q)
  }

  lemma SplitOfSlice(s: string, p: nat, q: nat, a: nat, b: nat)
    requires p <= q <= |s|
    ensures SplitIn(s, p, q, a, b) <==> IsEmailSplit(s[p..q], a, b)
  {
    var w := s[p..q];
    if 0 < a && a + 1 < b && b + 2 < q - p {
      assert AllIn(Local, s, p, p + a) <==> AllIn(Local, w, 0, a) by {
        assert forall j :: 0 <= j < a ==> w[j] == s[p + j];
      }
      assert AllIn(Domain, s, p + a + 1, p + b) <==> AllIn(Domain, w, a + 1, b) by {
        assert forall j :: a + 1 <= j < b ==> w[j] == s[p + j];
      }
      assert AllIn(Alpha, s, p + b + 1, q) <==> AllIn(Alpha, w, b + 1, |w|) by {
        assert forall j :: b + 1 <= j < |w| ==> w[j] == s[p + j];
      }
    }
  }

  /** The parts of a match: the `@` at `at` and a domain of `k` characters. */
  lemma MatchParts(s: string, i: nat) returns (at: nat, k: nat)
    requires i <= |s| && MatchAt(s, i).Some?
    ensures i < at && at + 1 + k < |s| && 1 <= k
    ensures AllIn(Local, s, i, at) && s[at] == '@'
    ensures AllIn(Domain, s, at + 1, at + 1 + k) && TldAt(s, at + 1 + k)
    ensures MatchAt(s, i).value == at + k + 2 + Span(Alpha, s, at + k + 2)
  {
    at := i + Span(Local, s, i);
    var d := at + 1;
    var n := Span(Domain, s, d);
    var r := DomainLen(s, d, n);
    assert MatchAt(s, i) == match r case None => None case Some(k) => Some(d + k + 1 + Span(Alpha, s, d + k + 1));
    k := r.value;
    DomainLenLast(s, d, n);
    AllInSub(Domain, s, d, d + n, d + k);
  }

  /** A run of a class contains the runs of the class inside it. */
  lemma AllInSub(k: Class, t: string, lo: nat, hi: nat, mid: nat)
    requires lo <= mid <= hi <= |t| && AllIn(k, t, lo, hi)
    ensures AllIn(k, t, lo, mid)
  {
  }

  /** What the scanner returns at `i` is a substring of the shape of an address. */
  lemma MatchShape(s: string, i: nat)
    requires i <= |s| && MatchAt(s, i).Some?
    ensures EmailShape(s[i..MatchAt(s, i).value])
  {
    var e := MatchAt(s, i).value;
    var at, k := MatchParts(s, i);
    var b := at + 1 + k;
    SplitOfSlice(s, i, e, at - i, b - i);
    assert IsEmailSplit(s[i..e], at - i, b - i) by {
      assert SplitIn(s, i, e, at - i, b - i);
    }
  }

  /** A run of the class that ends at a character outside it is exactly the greedy span. */
  lemma SpanIs(k: Class, s: string, i: nat, n: nat)
    requires i + n <= |s| && AllIn(k, s, i, i + n)
    requires i + n < |s| ==> !InClass(k, s[i + n])
    ensures Span(k, s, i) == n
  {
  }

  /** A span is at least as long as any run of the class it starts. */
  lemma SpanCovers(k: Class, s: string, i: nat, n: nat)
    requires i + n <= |s| && AllIn(k, s, i, i + n)
    ensures Span(k, s, i) >= n
  {
  }

  /** Wherever a substring of the shape of an address starts, the scanner finds a match. */
  lemma ShapeMatches(s: string, p: nat, q: nat, a: nat, b: nat)
    requires p <= q <= |s| && SplitIn(s, p, q, a, b)
    ensures MatchAt(s, p).Some?
  {
    var d := p + a + 1;
    SplitRuns(s, p, q, a, b);
    SpanIs(Local, s, p, a);
    SpanCovers(Domain, s, d, q - d);
    SpanCovers(Alpha, s, p + b + 1, q - (p + b + 1));
    var n := Span(Domain, s, d);
    assert TldAt(s, p + b);
    DomainLenLast(s, d, n);
    assert DomainLen(s, d, n).Some? by {
      assert d + 1 <= p + b <= d + n;
    }
    MatchAtFound(s, p);
  }

  /** The runs the scanner looks for in a substring of the shape of an address: the local
      part ends at `@`, and everything after `@` is in the domain class. */
  lemma SplitRuns(s: string, p: nat, q: nat, a: nat, b: nat)
    requires p <= q <= |s| && SplitIn(s, p, q, a, b)
    ensures AllIn(Local, s, p, p + a) && s[p + a] == '@' && !InClass(Local, s[p + a])
    ensures AllIn(Domain, s, p + a + 1, q) && s[p + b] == '.'
    ensures AllIn(Alpha, s, p + b + 1, q) && p + b + 1 + 2 <= q
  {
  }

  /** A match starts at `i` when the local part there is followed by `@` and a domain with
      a top-level domain. */
  lemma MatchAtFound(s: string, i: nat)
    requires i <= |s|
    requires var at := i + Span(Local, s, i);
             at != i && at < |s| && s[at] == '@' && DomainLen(s, at + 1, Span(Domain, s, at + 1)).Some?
    ensures MatchAt(s, i).Some?
  {
  }

  /** No match starts at `i` when the local-part run there is empty, reaches the end of
      the text, or ends at a character other than `@`. */
  lemma NoMatchNoAt(s: string, i: nat, n: nat)
    requires i + n <= |s| && AllIn(Local, s, i, i + n)
    requires i + n < |s| ==> !InClass(Local, s[i + n])
    requires n == 0 || i + n == |s| || s[i + n] != '@'
    ensures MatchAt(s, i).None?
  {
    SpanIs(Local, s, i, n);
  }

  /** No match starts at `i` when the domain run after the `@` has no `.` in it. */
  lemma NoMatchNoTld(s: string, i: nat, at: nat, n: nat)
    requires i < at && at + 1 + n <= |s|
    requires AllIn(Local, s, i, at) && s[at] == '@'
    requires AllIn(Domain, s, at + 1, at + 1 + n)
    requires at + 1 + n < |s| ==> !InClass(Domain, s[at + 1 + n])
    requires forall j :: at + 1 < j <= at + 1 + n && j < |s| ==> s[j] != '.'
    ensures MatchAt(s, i).None?
  {
    SpanIs(Local, s, i, at - i);
    SpanIs(Domain, s, at + 1, n);
    DomainLenLast(s, at + 1, n);
  }

  /** The match at `i` of an address whose domain run ends where the text or the domain
      class ends and whose last `.` is at `b`: it ends at `e`. */
  lemma MatchIs(s: string, i: nat, at: nat, b: nat, e: nat)
    requires i < at && at + 1 < b && b + 2 < e <= |s|
    requires AllIn(Local, s, i, at) && s[at] == '@'
    requires AllIn(Domain, s, at + 1, e) && (e < |s| ==> !InClass(Domain, s[e]))
    requires s[b] == '.' && AllIn(Alpha, s, b + 1, e)
    ensures MatchAt(s, i) == Some(e)
  {
    SpanIs(Local, s, i, at - i);
    DomainIs(s, at + 1, b, e);
    SpanIs(Alpha, s, b + 1, e - (b + 1));
    MatchAtOf(s, i, at, b, e);
  }

  /** `MatchAt` from the lengths of its three runs. */
  lemma MatchAtOf(s: string, i: nat, at: nat, b: nat, e: nat)
    requires i < at < b < e <= |s| && s[at] == '@'
    requires Span(Local, s, i) == at - i
    requires Span(Domain, s, at + 1) == e - (at + 1)
    requires DomainLen(s, at + 1, e - (at + 1)) == Some(b - (at + 1))
    requires Span(Alpha, s, b + 1) == e - (b + 1)
    ensures MatchAt(s, i) == Some(e)
  {
  }

  /** The domain run from `d` to `e`, whose last `.` is at `b`, backtracks to `b`. */
  lemma DomainIs(s: string, d: nat, b: nat, e: nat)
    requires d < b && b + 2 < e <= |s|
    requires AllIn(Domain, s, d, e) && (e < |s| ==> !InClass(Domain, s[e]))
    requires s[b] == '.' && AllIn(Alpha, s, b + 1, e)
    ensures Span(Domain, s, d) == e - d && DomainLen(s, d, e - d) == Some(b - d)
  {
    SpanIs(Domain, s, d, e - d);
    SpanIs(Alpha, s, b + 1, e - (b + 1));
    forall j | b < j <= e && j < |s| ensures s[j] != '.' {
      if j < e {
        assert InClass(Alpha, s[j]);
      }
    }
    DomainLenIs(s, d, e - d, b);
  }

  /** The domain part backtracks to the `.` at `b` when no later `.` is within reach. */
  lemma {:induction false} DomainLenIs(s: string, d: nat, n: nat, b: nat)
    requires d < b <= d + n <= |s| && TldAt(s, b)
    requires forall j :: b < j <= d + n && j < |s| ==> s[j] != '.'
    ensures DomainLen(s, d, n) == Some(b - d)
    decreases n
  {
    if d + n != b {
      DomainLenIs(s, d, n - 1, b);
    }
  }

  /** The scanner passes over positions where no match starts. */
  lemma FindAllSkips(s: string, i: nat, p: nat)
    requires i <= p <= |s|
    requires forall j :: i <= j < p ==> MatchAt(s, j).None?
    ensures FindAll(s, i) == FindAll(s, p)
  {
    NoMatchBetweenOf(s, i, p);
    FindAllPasses(s, i, p);
  }

  /** No match starts at any position from `i` up to `p`, one position at a time. */
  predicate NoMatchBetween(s: string, i: nat, p: nat)
    requires i <= p <= |s|
    decreases p - i
  {
    i < p ==> MatchAt(s, i).None? && NoMatchBetween(s, i + 1, p)
  }

  lemma {:induction false} NoMatchBetweenOf(s: string, i: nat, p: nat)
    requires i <= p <= |s|
    requires forall j :: i <= j < p ==> MatchAt(s, j).None?
    ensures NoMatchBetween(s, i, p)
    decreases p - i
  {
    if i < p {
      NoMatchBetweenOf(s, i + 1, p);
    }
  }

  lemma {:induction false} FindAllPasses(s: string, i: nat, p: nat)
    requires i <= p <= |s| && NoMatchBetween(s, i, p)
    ensures FindAll(s, i) == FindAll(s, p)
    decreases p - i
  {
    if i < p {
      FindAllNone(s, i);
      FindAllPasses(s, i + 1, p);
    }
  }

  lemma FindAllNone(s: string, i: nat)
    requires i < |s| && MatchAt(s, i).None?
    ensures FindAll(s, i) == FindAll(s, i + 1)
  {
  }

  // ---------------------------------------------------------------------------
  // What extract_emails returns

  /** Every string `FindAll` returns is a substring of its input of the shape of an address. */
  lemma {:induction false} FindAllSound(s: string, i: nat)
    requires i <= |s|
    ensures forall e :: e in FindAll(s, i) ==>
              EmailShape(e) && exists p, q :: i <= p < q <= |s| && e == s[p..q]
    decreases |s| - i
  {
    if i < |s| {
      match MatchAt(s, i)
      case None =>
        FindAllSound(s, i + 1);
      case Some(e) =>
        FindAllSound(s, e);
        MatchShape(s, i);
    }
  }

  /** Once the scanner is at or before a position where a match starts, it finds something. */
  lemma {:induction false} FindAllReaches(s: string, i: nat, p: nat)
    requires i <= p <= |s| && MatchAt(s, p).Some?
    ensures FindAll(s, i) != []
    decreases p - i
  {
    if MatchAt(s, i).None? {
      FindAllReaches(s, i + 1, p);
    }
  }

  /** Every extracted string has the shape `local@domain.tld` and occurs in the text. */
  lemma ExtractSound(text: string)
    ensures forall e :: e in ExtractEmails(text) ==>
              EmailShape(e) && exists p, q :: 0 <= p < q <= |text| && e == text[p..q]
  {
    FindAllSound(text, 0);
  }

  /** Something is extracted exactly when some substring of the text has the shape of an
      address; in particular text with no match yields the empty set. */
  lemma ExtractNonEmpty(text: string)
    ensures ExtractEmails(text) != {} <==>
            exists p, q, a, b :: 0 <= p <= q <= |text| && IsEmailSplit(text[p..q], a, b)
  {
    if ExtractEmails(text) != {} {
      var e :| e in ExtractEmails(text);
      ExtractSound(text);
      var p, q :| 0 <= p < q <= |text| && e == text[p..q];
      var a, b :| IsEmailSplit(e, a, b);
    }
    if exists p, q, a, b :: 0 <= p <= q <= |text| && IsEmailSplit(text[p..q], a, b) {
      var p, q, a, b :| 0 <= p <= q <= |text| && IsEmailSplit(text[p..q], a, b);
      SplitOfSlice(text, p, q, a, b);
      ShapeMatches(text, p, q, a, b);
      FindAllReaches(text, 0, p);
      assert FindAll(text, 0)[0] in ExtractEmails(text);
    }
  }

  /** Text without `@` yields the empty set. */
  lemma NoAtNoEmails(text: string)
    requires forall i :: 0 <= i < |text| ==> text[i] != '@'
    ensures ExtractEmails(text) == {}
  {
    ExtractSound(text);
  }
}
