/** Two texts worked through `normalize_text` and `extract_emails` (app.py:23-30): the
    bracketed spelling of an address, and the same address after words that spell out
    ` at `, which is replaced too. Each substitution is one lemma. The texts enter most
    lemmas as parameters pinned by `requires t == "..."` rather than as literals in the
    statement: a literal there is unfolded character by character against every step of
    the scan, which takes the verifier past its resource limit; as a parameter it is
    unfolded only where a step needs it. */
module Examples {
  import opened Chars
  import opened Wrappers
  import opened Normalizer
  import opened Emails

  // ---------------------------------------------------------------------------
  // The table one substitution at a time

  /** The table unrolled: the six substitutions one after another. */
  lemma ApplyAllSix(s: string)
    ensures ApplyAll(Obfuscations, s) ==
            Rewrite(Obfuscations[5], Rewrite(Obfuscations[4], Rewrite(Obfuscations[3],
            Rewrite(Obfuscations[2], Rewrite(Obfuscations[1], Rewrite(Obfuscations[0], s))))))
  {
    var t := Obfuscations;
    assert t[1..][1..][1..][1..][1..][1..] == [];
  }

  /** Normalisation as the six substitutions, given the text after each of them. */
  lemma NormalizeSteps(t: string, t0: string, t1: string, t2: string, t3: string, t4: string, t5: string)
    requires Lower(t) == t
    requires Rewrite(Obfuscations[0], t) == t0 && Rewrite(Obfuscations[1], t0) == t1
    requires Rewrite(Obfuscations[2], t1) == t2 && Rewrite(Obfuscations[3], t2) == t3
    requires Rewrite(Obfuscations[4], t3) == t4 && Rewrite(Obfuscations[5], t4) == t5
    ensures Normalize(t) == t5
  {
    ApplyAllSix(t);
  }

  /** One substitution in the middle of text in which its pattern occurs nowhere else. */
  lemma ReplaceStep(r: Rule, t: string, x: string, w1: string, w2: string, y: string, out: string)
    requires ValidRule(r) && AllSpace(w1) && AllSpace(w2) && (r.padded ==> |w1| > 0 && |w2| > 0)
    requires (y == [] || !IsSpace(y[0])) && (x == [] || !IsSpace(x[|x| - 1]))
    requires t == x + w1 + r.token + w2 + y && CleanBefore(r, t, |x|) && Clean(r, y)
    requires out == x + [r.replacement] + y
    ensures Rewrite(r, t) == out
  {
    RewriteReplacesWithin(r, x, w1, w2, y);
    RewriteIdentity(r, y);
  }

  /** Text in which the scanner's only match is the one at `p`, running to the end, yields
      exactly that substring. */
  lemma FindsOne(s: string, p: nat, e: nat)
    requires p < e == |s|
    requires forall j :: 0 <= j < p ==> MatchAt(s, j).None?
    requires MatchAt(s, p) == Some(e)
    ensures ExtractEmails(s) == {s[p..e]}
  {
    FindAllSkips(s, 0, p);
    assert FindAll(s, p) == [s[p..e]] + FindAll(s, e);
    assert FindAll(s, 0) == [s[p..e]];
  }

  /** One substitution of a rule that lacks the `j`-th character of its token. */
  lemma KeepStep(r: Rule, t: string, j: nat)
    requires ValidRule(r) && j < |r.token| && r.token[j] !in t
    ensures Rewrite(r, t) == t
  {
    CleanByAbsent(r, t, j);
    RewriteIdentity(r, t);
  }

  /** The text after the `[at]` of both examples. */
  lemma AfterAtClean(y: string)
    requires y == "bar [dot] com"
    ensures Clean(Obfuscations[0], y)
  {
    CleanBeforeBySplit(Obfuscations[0], y, |y|, 0, "bar ", "[dot] com", []);
    CleanOfBefore(Obfuscations[0], y);
  }

  /** The text after the `[dot]` of both examples. */
  lemma AfterDotClean(y: string)
    requires y == "com"
    ensures Clean(Obfuscations[3], y)
  {
    CleanByAbsent(Obfuscations[3], y, 0);
  }

  /** `foo@bar [dot] com` has no ` at `. */
  lemma NoSpelledAt(y: string)
    requires y == "foo@bar [dot] com"
    ensures Clean(Obfuscations[2], y)
  {
    CleanBeforeBySpace(Obfuscations[2], y, |y|, "foo@bar", " [dot] com", []);
    CleanOfBefore(Obfuscations[2], y);
  }

  // ---------------------------------------------------------------------------
  // foo [at] bar [dot] com

  lemma BracketedLower(t: string)
    requires t == "foo [at] bar [dot] com"
    ensures Lower(t) == t
  {
    assert NoUpper(t);
    LowerOfLower(t);
  }

  lemma Bracketed0Shape(t: string, y: string, out: string)
    requires t == "foo [at] bar [dot] com" && y == "bar [dot] com" && out == "foo@bar [dot] com"
    ensures t == "foo" + " " + Obfuscations[0].token + " " + y
    ensures out == "foo" + [Obfuscations[0].replacement] + y
  {
  }

  lemma Bracketed0Before(t: string)
    requires t == "foo [at] bar [dot] com"
    ensures CleanBefore(Obfuscations[0], t, 3)
  {
    CleanBeforeBySplit(Obfuscations[0], t, 3, 0, "foo ", "[", "at] bar [dot] com");
  }

  lemma Bracketed0(t: string, y: string, out: string)
    requires t == "foo [at] bar [dot] com" && y == "bar [dot] com" && out == "foo@bar [dot] com"
    ensures Rewrite(Obfuscations[0], t) == out
  {
    ObfuscationsValid();
    Bracketed0Shape(t, y, out);
    Bracketed0Before(t);
    AfterAtClean(y);
    ReplaceStep(Obfuscations[0], t, "foo", " ", " ", y, out);
  }

  lemma Bracketed3Shape(t: string, y: string, out: string)
    requires t == "foo@bar [dot] com" && y == "com" && out == "foo@bar.com"
    ensures t == "foo@bar" + " " + Obfuscations[3].token + " " + y
    ensures out == "foo@bar" + [Obfuscations[3].replacement] + y
  {
  }

  lemma Bracketed3Before(t: string)
    requires t == "foo@bar [dot] com"
    ensures CleanBefore(Obfuscations[3], t, 7)
  {
    CleanBeforeBySplit(Obfuscations[3], t, 7, 0, "foo@bar ", "[", "dot] com");
  }

  lemma Bracketed3(t: string, y: string, out: string)
    requires t == "foo@bar [dot] com" && y == "com" && out == "foo@bar.com"
    ensures Rewrite(Obfuscations[3], t) == out
  {
    ObfuscationsValid();
    Bracketed3Shape(t, y, out);
    Bracketed3Before(t);
    AfterDotClean(y);
    ReplaceStep(Obfuscations[3], t, "foo@bar", " ", " ", y, out);
  }

  lemma Bracketed1(u: string)
    requires u == "foo@bar [dot] com"
    ensures Rewrite(Obfuscations[1], u) == u
  {
    ObfuscationsValid();
    KeepStep(Obfuscations[1], u, 0);
  }

  lemma Bracketed2(u: string)
    requires u == "foo@bar [dot] com"
    ensures Rewrite(Obfuscations[2], u) == u
  {
    ObfuscationsValid();
    NoSpelledAt(u);
    RewriteIdentity(Obfuscations[2], u);
  }

  lemma Bracketed4(v: string)
    requires v == "foo@bar.com"
    ensures Rewrite(Obfuscations[4], v) == v
  {
    ObfuscationsValid();
    KeepStep(Obfuscations[4], v, 0);
  }

  lemma Bracketed5(v: string)
    requires v == "foo@bar.com"
    ensures Rewrite(Obfuscations[5], v) == v
  {
    ObfuscationsValid();
    KeepStep(Obfuscations[5], v, 0);
  }

  /** The lower-casing and the three `at` substitutions. */
  lemma BracketedAt(t: string, u: string)
    requires t == "foo [at] bar [dot] com" && u == "foo@bar [dot] com"
    ensures Lower(t) == t && Rewrite(Obfuscations[0], t) == u
    ensures Rewrite(Obfuscations[1], u) == u && Rewrite(Obfuscations[2], u) == u
  {
    BracketedLower(t);
    Bracketed0(t, "bar [dot] com", u);
    Bracketed1(u);
    Bracketed2(u);
  }

  /** The three `dot` substitutions. */
  lemma BracketedDot(u: string, v: string)
    requires u == "foo@bar [dot] com" && v == "foo@bar.com"
    ensures Rewrite(Obfuscations[3], u) == v
    ensures Rewrite(Obfuscations[4], v) == v && Rewrite(Obfuscations[5], v) == v
  {
    Bracketed3(u, "com", v);
    Bracketed4(v);
    Bracketed5(v);
  }

  /** `foo [at] bar [dot] com` normalises to `foo@bar.com`. */
  lemma NormalizeBracketed(t: string, v: string)
    requires t == "foo [at] bar [dot] com" && v == "foo@bar.com"
    ensures Normalize(t) == v
  {
    var u := "foo@bar [dot] com";
    BracketedAt(t, u);
    BracketedDot(u, v);
    NormalizeSteps(t, u, u, u, v, v, v);
  }

  /** The scanner reads `foo@bar.com` as one address. */
  lemma BracketedMatch(s: string)
    requires s == "foo@bar.com"
    ensures |s| == 11 && MatchAt(s, 0) == Some(11)
  {
    assert AllIn(Local, s, 0, 3) && s[3] == '@' && AllIn(Domain, s, 4, 11);
    assert s[7] == '.' && AllIn(Alpha, s, 8, 11);
    MatchIs(s, 0, 3, 7, 11);
  }

  lemma ExtractBracketedText(s: string)
    requires s == "foo@bar.com"
    ensures ExtractEmails(s) == {"foo@bar.com"}
  {
    BracketedMatch(s);
    FindsOne(s, 0, 11);
    assert s[0..11] == s;
  }

  /** `foo [at] bar [dot] com` yields exactly the address `foo@bar.com`. */
  lemma ExtractBracketed()
    ensures ExtractEmails(Normalize("foo [at] bar [dot] com")) == {"foo@bar.com"}
  {
    NormalizeBracketed("foo [at] bar [dot] com", "foo@bar.com");
    ExtractBracketedText("foo@bar.com");
  }

  // ---------------------------------------------------------------------------
  // contact us at foo [at] bar [dot] com

  lemma SpelledOutLower(t: string)
    requires t == "contact us at foo [at] bar [dot] com"
    ensures Lower(t) == t
  {
    assert NoUpper(t);
    LowerOfLower(t);
  }

  lemma SpelledOut0Shape(t: string, y: string, out: string)
    requires t == "contact us at foo [at] bar [dot] com" && y == "bar [dot] com"
    requires out == "contact us at foo@bar [dot] com"
    ensures t == "contact us at foo" + " " + Obfuscations[0].token + " " + y
    ensures out == "contact us at foo" + [Obfuscations[0].replacement] + y
  {
  }

  lemma SpelledOut0Before(t: string)
    requires t == "contact us at foo [at] bar [dot] com"
    ensures CleanBefore(Obfuscations[0], t, 17)
  {
    CleanBeforeBySplit(Obfuscations[0], t, 17, 0, "contact us at foo ", "[", "at] bar [dot] com");
  }

  lemma SpelledOut0(t: string, y: string, out: string)
    requires t == "contact us at foo [at] bar [dot] com" && y == "bar [dot] com"
    requires out == "contact us at foo@bar [dot] com"
    ensures Rewrite(Obfuscations[0], t) == out
  {
    ObfuscationsValid();
    SpelledOut0Shape(t, y, out);
    SpelledOut0Before(t);
    AfterAtClean(y);
    ReplaceStep(Obfuscations[0], t, "contact us at foo", " ", " ", y, out);
  }

  lemma SpelledOut2Shape(t: string, y: string, out: string)
    requires t == "contact us at foo@bar [dot] com" && y == "foo@bar [dot] com"
    requires out == "contact us@foo@bar [dot] com"
    ensures t == "contact us" + " " + Obfuscations[2].token + " " + y
    ensures out == "contact us" + [Obfuscations[2].replacement] + y
  {
  }

  lemma SpelledOut2Before(t: string)
    requires t == "contact us at foo@bar [dot] com"
    ensures CleanBefore(Obfuscations[2], t, 10)
  {
    CleanBeforeBySpace(Obfuscations[2], t, 10, "contact", " us ", "at foo@bar [dot] com");
  }

  /** ` at ` between two words is replaced too: `us at foo` becomes `us@foo`. */
  lemma SpelledOut2(t: string, y: string, out: string)
    requires t == "contact us at foo@bar [dot] com" && y == "foo@bar [dot] com"
    requires out == "contact us@foo@bar [dot] com"
    ensures Rewrite(Obfuscations[2], t) == out
  {
    ObfuscationsValid();
    SpelledOut2Shape(t, y, out);
    SpelledOut2Before(t);
    NoSpelledAt(y);
    ReplaceStep(Obfuscations[2], t, "contact us", " ", " ", y, out);
  }

  lemma SpelledOut3Shape(t: string, y: string, out: string)
    requires t == "contact us@foo@bar [dot] com" && y == "com" && out == "contact us@foo@bar.com"
    ensures t == "contact us@foo@bar" + " " + Obfuscations[3].token + " " + y
    ensures out == "contact us@foo@bar" + [Obfuscations[3].replacement] + y
  {
  }

  lemma SpelledOut3Before(t: string)
    requires t == "contact us@foo@bar [dot] com"
    ensures CleanBefore(Obfuscations[3], t, 18)
  {
    CleanBeforeBySplit(Obfuscations[3], t, 18, 0, "contact us@foo@bar ", "[", "dot] com");
  }

  lemma SpelledOut3(t: string, y: string, out: string)
    requires t == "contact us@foo@bar [dot] com" && y == "com" && out == "contact us@foo@bar.com"
    ensures Rewrite(Obfuscations[3], t) == out
  {
    ObfuscationsValid();
    SpelledOut3Shape(t, y, out);
    SpelledOut3Before(t);
    AfterDotClean(y);
    ReplaceStep(Obfuscations[3], t, "contact us@foo@bar", " ", " ", y, out);
  }

  lemma SpelledOut1(u: string)
    requires u == "contact us at foo@bar [dot] com"
    ensures Rewrite(Obfuscations[1], u) == u
  {
    ObfuscationsValid();
    KeepStep(Obfuscations[1], u, 0);
  }

  lemma SpelledOut4(w: string)
    requires w == "contact us@foo@bar.com"
    ensures Rewrite(Obfuscations[4], w) == w
  {
    ObfuscationsValid();
    KeepStep(Obfuscations[4], w, 0);
  }

  lemma SpelledOut5(w: string)
    requires w == "contact us@foo@bar.com"
    ensures Rewrite(Obfuscations[5], w) == w
  {
    ObfuscationsValid();
    KeepStep(Obfuscations[5], w, 0);
  }

  /** The lower-casing and the three `at` substitutions. */
  lemma SpelledOutAt(t: string, u: string, v: string)
    requires t == "contact us at foo [at] bar [dot] com" && u == "contact us at foo@bar [dot] com"
    requires v == "contact us@foo@bar [dot] com"
    ensures Lower(t) == t && Rewrite(Obfuscations[0], t) == u
    ensures Rewrite(Obfuscations[1], u) == u && Rewrite(Obfuscations[2], u) == v
  {
    SpelledOutLower(t);
    SpelledOut0(t, "bar [dot] com", u);
    SpelledOut1(u);
    SpelledOut2(u, "foo@bar [dot] com", v);
  }

  /** The three `dot` substitutions. */
  lemma SpelledOutDot(v: string, w: string)
    requires v == "contact us@foo@bar [dot] com" && w == "contact us@foo@bar.com"
    ensures Rewrite(Obfuscations[3], v) == w
    ensures Rewrite(Obfuscations[4], w) == w && Rewrite(Obfuscations[5], w) == w
  {
    SpelledOut3(v, "com", w);
    SpelledOut4(w);
    SpelledOut5(w);
  }

  /** The ` at ` of the sentence is replaced as well, so the text becomes
      `contact us@foo@bar.com`. */
  lemma NormalizeSpelledOut(t: string, w: string)
    requires t == "contact us at foo [at] bar [dot] com" && w == "contact us@foo@bar.com"
    ensures Normalize(t) == w
  {
    var u, v := "contact us at foo@bar [dot] com", "contact us@foo@bar [dot] com";
    SpelledOutAt(t, u, v);
    SpelledOutDot(v, w);
    NormalizeSteps(t, u, u, v, w, w, w);
  }

  lemma SpelledOutRuns(s: string)
    requires s == "contact us@foo@bar.com"
    ensures |s| == 22 && AllIn(Local, s, 0, 7) && s[7] == ' ' && AllIn(Local, s, 8, 10) && s[10] == '@'
    ensures AllIn(Domain, s, 11, 14) && s[14] == '@' && forall j :: 11 < j <= 14 ==> s[j] != '.'
    ensures AllIn(Local, s, 11, 14) && AllIn(Domain, s, 15, 22) && s[18] == '.' && AllIn(Alpha, s, 19, 22)
  {
  }

  /** Where the scanner finds nothing in `contact us@foo@bar.com`: inside the first word,
      at the blank, in `us@foo`, whose domain `foo` is not followed by a top-level domain,
      and at the `@`. */
  lemma SpelledOutSkips(s: string)
    requires s == "contact us@foo@bar.com"
    ensures forall j :: 0 <= j < 11 ==> MatchAt(s, j).None?
  {
    SpelledOutRuns(s);
    forall j | 0 <= j < 11 ensures MatchAt(s, j).None? {
      if j < 7 {
        NoMatchNoAt(s, j, 7 - j);
      } else if j == 7 || j == 10 {
        NoMatchNoAt(s, j, 0);
      } else {
        NoMatchNoTld(s, j, 10, 3);
      }
    }
  }

  lemma SpelledOutMatch(s: string)
    requires s == "contact us@foo@bar.com"
    ensures |s| == 22 && MatchAt(s, 11) == Some(22)
  {
    SpelledOutRuns(s);
    MatchIs(s, 11, 14, 18, 22);
  }

  /** The scanner's first match is `foo@bar.com`, which runs to the end of the text. */
  lemma ExtractSpelledOutText(s: string)
    requires s == "contact us@foo@bar.com"
    ensures ExtractEmails(s) == {"foo@bar.com"}
  {
    SpelledOutSkips(s);
    SpelledOutMatch(s);
    FindsOne(s, 11, 22);
    SpelledOutTail(s);
  }

  lemma SpelledOutTail(s: string)
    requires s == "contact us@foo@bar.com"
    ensures s[11..22] == "foo@bar.com"
  {
    var a, b := "contact us@", "foo@bar.com";
    assert s == a + b;
    assert (a + b)[|a|..|a| + |b|] == b;
  }

  /** `contact us at foo [at] bar [dot] com` yields exactly the address `foo@bar.com`:
      `us@foo` is no address, since `foo` is followed by `@` and not by a top-level domain. */
  lemma ExtractSpelledOut()
    ensures "foo@bar.com" in ExtractEmails(Normalize("contact us at foo [at] bar [dot] com"))
    ensures ExtractEmails(Normalize("contact us at foo [at] bar [dot] com")) == {"foo@bar.com"}
  {
    NormalizeSpelledOut("contact us at foo [at] bar [dot] com", "contact us@foo@bar.com");
    ExtractSpelledOutText("contact us@foo@bar.com");
  }
}
